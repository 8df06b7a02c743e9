/** `mem_alloc_check_page`: gives every page of a range a frame
    (kernel/src/code/mem/alloc.c lines 32-46). */
module Pager {
  import opened Options
  import opened PageEntry
  import opened PageMapping
  import opened PageBits
  import opened PageMapper
  import opened PageSteps
  import opened Words
  import opened Bitmap
  import opened MemoryMap
  import opened FrameTable
  import opened Paging

  class PageSource {
    const pages: Mapper
    const frames: FrameAllocator

    constructor (pages: Mapper, frames: FrameAllocator)
      ensures this.pages == pages && this.frames == frames
    {
      this.pages, this.frames := pages, frames;
    }

    ghost predicate Valid()
      reads this, pages
    {
      pages.Valid() && frames.Valid() && Backable(frames.regions)
    }

    ghost function Now(): Store
      reads this, pages, frames.bytes
    {
      Store(pages.View(), frames.bytes[..])
    }

    /** Spare tables enough for the pages from `start` to `end`. */
    ghost predicate EnoughSpares(start: nat, end: nat)
      reads this, pages
    {
      |pages.supply| >= 3 * (end / 0x1000 + 1 - start / 0x1000)
    }

    /** The page table of page `n` exists. */
    ghost predicate TableFor(n: nat)
      requires n < LOW_PAGES
      reads this, pages
    {
      HasTable(pages.View(), PageWord(n))
    }

    /** The page tables of all pages that meet `start..end` exist. */
    ghost predicate TablesFor(start: nat, end: nat)
      requires end <= 0x1000 * LOW_PAGES
      reads this, pages
    {
      forall n: nat :: start / 0x1000 <= n && 0x1000 * n < end ==> TableFor(n)
    }

    /** Another allocation of one page would fail. */
    ghost predicate NoFrameLeft()
      reads this, frames.bytes
    {
      NoFitBelow(frames.regions, frames.bytes[..], 1, |frames.regions|)
    }

    /** One turn of the loop: page `n` gets a frame unless it has one. */
    method CheckOne(n: nat) returns (halted: bool, ghost given: map<nat, RamPage>)
      requires Valid() && n < LOW_PAGES && |pages.supply| >= 3
      modifies pages, frames.bytes
      ensures Valid() && |pages.supply| >= old(|pages.supply|) - 3
      ensures Backs(frames.regions, old(Now()), Now(), given)
      ensures given.Keys <= {n}
      ensures GivenLeaves(frames.regions, pages.View(), given) && LeavesStay(old(pages.View()), pages.View())
      ensures TablesGrow(old(pages.View()), pages.View())
      ensures old(TableFor(n)) ==> |pages.supply| == old(|pages.supply|)
      ensures if halted then
                FrameOf(Now(), n) == None && NoFrameLeft()
              else FrameOf(Now(), n).Some?
    {
      hide Ready, PageWord, FrameWord, Frame, Backs, Gives, GivenLeaves, LeavesStay, FirstFit, NoFitBelow, Trace;
      hide ProtClear, I4, FilterOk, Aligned, MapPage, Backable, WellFormed, Overwritten, HasTable, Update;
      ghost var before := Now();
      given := map[];
      BacksNothing(frames.regions, before);
      NoLeaves(frames.regions, before.pages);
      Traceable(pages.View());
      TraceAnswers(pages.View(), PageWord(n));
      var code, frame := pages.TracePage(PageWord(n));
      halted := false;
      if code != 0 {
        var error, addr, k, s := frames.Alloc(1);
        if error == 0 {
          PageWords(n, n);
          NoProt(pages.filter);
          AllocatedFrame(frames.regions, before.table, frames.bytes[..], addr, k, s);
          MapKeepsReady(pages.View(), PageWord(n), FrameWord(addr / 0x1000), 1, 0);
          MapLowTables(pages.View(), n, addr / 0x1000);
          pages.Map(PageWord(n), FrameWord(addr / 0x1000), 0x1, 0);
          BacksOne(frames.regions, before, Now(), n, addr, k, s);
          given := Only(n, RamPage(k, s));
          CheckedLeaf(frames.regions, before, Now(), n, addr, k, s);
          BacksGives(frames.regions, before, Now(), given);
          GivenIsMapped(frames.regions, before, Now(), given, n);
        } else {
          halted := true;
        }
      }
    }

    /** Calls `mem_alloc` again exactly if a page table of the range is missing.
        Either every page that meets `start..end` has a frame afterwards, or no
        free frame is left.  `given` says which pages were mapped, and where. */
    method CheckPage(start: nat, end: nat) returns (halted: bool, ghost given: map<nat, RamPage>)
      requires Valid() && end <= 0x1000 * LOW_PAGES && EnoughSpares(start, end)
      modifies pages, frames.bytes
      ensures Valid()
      ensures Backs(frames.regions, old(Now()), Now(), given)
      ensures Meet(given, start, end)
      ensures GivenLeaves(frames.regions, pages.View(), given) && LeavesStay(old(pages.View()), pages.View())
      ensures halted <==> !Backed(Now(), start, end)
      ensures halted ==> NoFrameLeft()
      ensures old(TablesFor(start, end)) ==> |pages.supply| == old(|pages.supply|)
      ensures !halted && |pages.supply| == old(|pages.supply|) ==> old(TablesFor(start, end))
    {
      hide Ready, PageWord, Frame, Backs, Gives, GivenLeaves, LeavesStay, NoFitBelow, Backable, HasTable;
      ghost var before := Now();
      given := map[];
      BacksNothing(frames.regions, before);
      NoLeaves(frames.regions, before.pages);
      var page := start - start % 0x1000;
      ghost var n := start / 0x1000;
      while page < end
        invariant page == 0x1000 * n && start / 0x1000 <= n
        invariant Valid() && |pages.supply| >= 3 * (end / 0x1000 + 1 - n)
        invariant Backs(frames.regions, before, Now(), given)
        invariant TablesGrow(before.pages, pages.View())
        invariant old(TablesFor(start, end)) ==> |pages.supply| == old(|pages.supply|)
        invariant Meet(given, start, end)
        invariant GivenLeaves(frames.regions, pages.View(), given) && LeavesStay(before.pages, pages.View())
        invariant forall j: nat :: start / 0x1000 <= j < n && 0x1000 * j < end ==> FrameOf(Now(), j).Some?
      {
        ghost var mid := Now();
        ghost var one;
        assert page / 0x1000 == n;
        if old(TablesFor(start, end)) {
          assert old(TableFor(n));
          assert TableFor(n);
        }
        halted, one := CheckOne(page / 0x1000);
        BacksGives(frames.regions, mid, Now(), one);
        LeavesRemain(frames.regions, mid.pages, pages.View(), given, one);
        LeavesStayOn(before.pages, mid.pages, pages.View());
        Compose(frames.regions, before, mid, Now(), given, one);
        given := given + one;
        if halted {
          return;
        }
        forall j: nat | start / 0x1000 <= j < n && 0x1000 * j < end ensures FrameOf(Now(), j).Some? {
          assert FrameOf(mid, j).Some?;
          MappingsStay(frames.regions, mid, Now(), one, PageWord(j));
        }
        page := page + 0x1000;
        n := n + 1;
      }
      halted := false;
      forall j: nat | start / 0x1000 <= j && 0x1000 * j < end
        ensures |pages.supply| == old(|pages.supply|) ==> old(TableFor(j))
      {
        assert FrameOf(Now(), j).Some?;
        FrameNeedsTable(pages.View(), PageWord(j));
        assert TableFor(j);
      }
    }
  }

  lemma NoLeaves(regions: seq<Region>, s: Pages)
    ensures GivenLeaves(regions, s, map[]) && LeavesStay(s, s)
  {
  }

  lemma Traceable(s: Pages)
    requires Ready(s)
    ensures FilterOk(s.filter) && Aligned(s.root.word)
  {
    assert TableAt(s.filter, s.root);
  }
}
