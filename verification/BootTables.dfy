/** The page tables the boot code leaves (boot/PM/kernel-PM.s lines 69-88 and
    206-220) are a tree of five tables. */
module BootTables {
  import opened Options
  import opened PageEntry
  import opened Radix
  import opened PageTables
  import opened PageMapping
  import opened PageSteps
  import opened Words
  import opened Bitmap
  import opened MemoryMap
  import opened FrameTable
  import opened FrameRuns
  import opened Paging

  const PML4: Addr := At(0x70000)
  const PDPT: Addr := At(0x71000)
  const PD: Addr := At(0x72000)
  const LOW_PT: Addr := At(0x73000)
  const KERNEL_PT: Addr := At(0x76000)

  /** The directory entry of linear address 0xFE00000. */
  const KERNEL_ENTRY: Index := Ix(127)

  /** The words from 0x70000 up to 0x73000: cleared, and then the four entries the
      boot code stores.  The two page tables hold anything. */
  ghost predicate BootMemory(m: Memory) {
    forall a: Word :: 0x70000 <= a < 0x73000 && a & 7 == 0 ==> Load(m, At(a)) == BootWord(a)
  }

  function BootWord(a: Word): Word {
    if a == 0x70000 then 0x71003
    else if a == 0x71000 then 0x72003
    else if a == 0x72000 then 0x73003
    else if a == 0x723F8 then 0x76003
    else 0
  }

  /** The entries of the three upper tables are among those words. */
  lemma BootCell(t: Word, i: Index)
    requires t == 0x70000 || t == 0x71000 || t == 0x72000
    ensures 0x70000 <= Cell(At(t), i).word < 0x73000 && Cell(At(t), i).word & 7 == 0
    ensures Cell(At(t), i).word == t <==> i == Ix(0)
    ensures Cell(At(t), i).word == 0x723F8 <==> t == 0x72000 && i == KERNEL_ENTRY
    ensures Cell(At(t), i).word & !0xFFF == t
  {
  }

  lemma BootEntry(m: Memory, i: Index)
    requires BootMemory(m)
    ensures Entry(m, PML4, i) == if i == Ix(0) then 0x71003 else 0
    ensures Entry(m, PDPT, i) == if i == Ix(0) then 0x72003 else 0
    ensures Entry(m, PD, i) == if i == Ix(0) then 0x73003 else if i == KERNEL_ENTRY then 0x76003 else 0
  {
    hide Cell;
    BootCell(0x70000, i);
    BootCell(0x71000, i);
    BootCell(0x72000, i);
  }

  function BootOwners(): Owners {
    map[PML4 := Root,
        PDPT := Link(3, PML4, Ix(0)),
        PD := Link(2, PDPT, Ix(0)),
        LOW_PT := Link(1, PD, Ix(0)),
        KERNEL_PT := Link(1, PD, KERNEL_ENTRY)]
  }

  lemma BootEntries(f: Word)
    requires FilterOk(f)
    ensures Present(0x71003) && Present(0x72003) && Present(0x73003) && Present(0x76003) && !Present(0)
    ensures Target(f, 0x71003) == PDPT && Target(f, 0x72003) == PD && Target(f, 0x73003) == LOW_PT
    ensures Target(f, 0x76003) == KERNEL_PT
    ensures Aligned(PML4.word) && Aligned(PDPT.word) && Aligned(PD.word)
  {
  }

  lemma BootEdges(m: Memory, f: Word, i: Index)
    requires FilterOk(f) && BootMemory(m)
    ensures Next(GraphOf(m, f), PML4, i) == if i == Ix(0) then Some(PDPT) else None
    ensures Next(GraphOf(m, f), PDPT, i) == if i == Ix(0) then Some(PD) else None
    ensures Next(GraphOf(m, f), PD, i) ==
            if i == Ix(0) then Some(LOW_PT) else if i == KERNEL_ENTRY then Some(KERNEL_PT) else None
  {
    hide GraphOf, Present, Target, Aligned, FilterOk, BootMemory;
    BootEntries(f);
    BootEntry(m, i);
    NextOf(m, f, PML4, i);
    NextOf(m, f, PDPT, i);
    NextOf(m, f, PD, i);
  }

  lemma BootTreeHolds(m: Memory, f: Word)
    requires FilterOk(f) && BootMemory(m)
    ensures Tree(GraphOf(m, f), PML4, BootOwners())
  {
    hide GraphOf, FilterOk, BootMemory;
    var own := BootOwners();
    assert PML4.word != PDPT.word && PML4.word != PD.word && PML4.word != LOW_PT.word && PML4.word != KERNEL_PT.word;
    assert PDPT.word != PD.word && PDPT.word != LOW_PT.word && PDPT.word != KERNEL_PT.word;
    assert PD.word != LOW_PT.word && PD.word != KERNEL_PT.word && LOW_PT.word != KERNEL_PT.word;
    forall c | c in own ensures Owned(GraphOf(m, f), own, c) {
      BootEdges(m, f, Ix(0));
      BootEdges(m, f, KERNEL_ENTRY);
    }
    forall t, i | t in own && Level(own[t]) >= 2 && Next(GraphOf(m, f), t, i).Some?
      ensures Next(GraphOf(m, f), t, i).value in own
      ensures own[Next(GraphOf(m, f), t, i).value] == Link(Level(own[t]) - 1, t, i)
    {
      BootEdges(m, f, i);
    }
  }

  lemma BootTablesAt(f: Word)
    requires FilterOk(f)
    ensures TableAt(f, PML4) && TableAt(f, PDPT) && TableAt(f, PD) && TableAt(f, LOW_PT) && TableAt(f, KERNEL_PT)
  {
  }

  /** With three spares, and whatever tables later allocations return, all of
      them empty and apart from the tree, the boot state is one from which every
      run of updates is sound. */
  lemma BootIsReady(m: Memory, f: Word, backup: seq<Addr>, supply: seq<Addr>)
    requires FilterOk(f) && BootMemory(m) && |backup| == 3 && Distinct(backup + supply)
    requires forall x :: x in backup + supply ==> TableAt(f, x) && x !in BootOwners() && Clear(GraphOf(m, f), x)
    ensures Ready(Pages(PML4, f, m, BootOwners(), backup, supply))
  {
    hide Tree, GraphOf, Distinct, Clear, BootMemory, FilterOk, TableAt;
    BootTreeHolds(m, f);
    BootTablesAt(f);
    forall k | 0 <= k < 3 ensures backup[k] in backup + supply {
      assert (backup + supply)[k] == backup[k];
    }
    forall k | 0 <= k < |supply| ensures supply[k] in backup + supply {
      assert (backup + supply)[3 + k] == supply[k];
    }
  }

  // ---- Low memory is mapped but not reserved ----

  lemma PageZeroPath()
    ensures Path(0) == [Ix(0), Ix(0), Ix(0), Ix(0)]
  {
  }

  lemma MaskedPageZero(f: Word)
    requires FilterOk(f)
    ensures Target(f, 0x3) == At(0) && Present(0x3) && Aligned(LOW_PT.word)
  {
  }

  /** The boot code's tables, page 0 among them mapped to frame 0, and the frame
      table as it is initialised over a memory map that starts with low RAM, with
      the kernel further up. */
  ghost predicate BootStore(regions: seq<Region>, s: Store, kernel: Range) {
    && |regions| > 0 && regions[0] == Region(0, 0x9F000, RAM) && TableSize(regions) >= 1
    && s.pages.root == PML4 && FilterOk(s.pages.filter) && BootMemory(s.pages.mem)
    && Entry(s.pages.mem, LOW_PT, Ix(0)) == 0x3
    && Initial(regions, State(s.table, [], kernel)) && BitOf(regions, kernel) > 0
  }

  lemma PageZeroIsMapped(regions: seq<Region>, s: Store, kernel: Range)
    requires BootStore(regions, s, kernel)
    ensures Frame(s.pages, 0) == Some(At(0))
  {
    hide GraphOf, BootMemory, FilterOk, Target, Present, Aligned, Path, Initial;
    var g := GraphOf(s.pages.mem, s.pages.filter);
    var q := [Ix(0), Ix(0), Ix(0), Ix(0)];
    PageZeroPath();
    MaskedPageZero(s.pages.filter);
    BootEdges(s.pages.mem, s.pages.filter, Ix(0));
    NextOf(s.pages.mem, s.pages.filter, LOW_PT, Ix(0));
    assert Descend(g, At(0), q[1..][1..][1..][1..]) == Some(At(0));
    assert Descend(g, LOW_PT, q[1..][1..][1..]) == Some(At(0));
    assert Descend(g, PD, q[1..][1..]) == Some(At(0));
    assert Descend(g, PDPT, q[1..]) == Some(At(0));
  }

  /** Frame 0 is mapped and marked free. */
  lemma BootMapIsNotTaken(regions: seq<Region>, s: Store, kernel: Range)
    requires BootStore(regions, s, kernel)
    ensures |s.table| > 0 && Bit(s.table, 0) && MapsRam(regions, s, 0, RamPage(0, 0)) && !MappedAreTaken(regions, s)
  {
    PageZeroIsMapped(regions, s, kernel);
    FrameWordCounts(0);
    assert MapsRam(regions, s, 0, RamPage(0, 0)) && BitAt(regions, RamPage(0, 0)) == 0;
  }

  /** The first page check of an unmapped page shares the frame of page 0. */
  lemma FirstCheckSharesFrame(regions: seq<Region>, a: Store, b: Store, kernel: Range, n: nat, addr: nat, k: nat,
                              p: nat)
    requires BootStore(regions, a, kernel) && Backable(regions) && Checks(regions, a, b, n, addr, k, p)
    ensures n < LOW_PAGES
    ensures FrameOf(b, n) == Frame(b.pages, 0) == Some(At(0)) && PageOf(PageWord(n)) != PageOf(0)
  {
    hide BootStore, Frame, PageWord, FrameWord, CanMap, MapLow, Backable, Path, PageOf;
    BootMapIsNotTaken(regions, a, kernel);
    PageZeroIsMapped(regions, a, kernel);
    FirstIsFrameZero(regions, a, kernel, k, p);
    BacksOne(regions, a, b, n, addr, k, p);
    FrameWordCounts(0);
    var given := Only(n, RamPage(k, p));
    assert BackedBy(regions, a, b, n, given[n]);
    MappingsStay(regions, a, b, given, 0);
    SameOrNot(a, n);
  }

  lemma SameOrNot(a: Store, n: nat)
    requires n < LOW_PAGES && FrameOf(a, n) == None && Frame(a.pages, 0).Some?
    ensures PageOf(PageWord(n)) != PageOf(0)
  {
    hide PageOf, PageWord, Frame;
    if PageOf(PageWord(n)) == PageOf(0) { SamePageSameFrame(a.pages, PageWord(n), 0); }
  }

  lemma FirstIsFrameZero(regions: seq<Region>, s: Store, kernel: Range, k: nat, p: nat)
    requires BootStore(regions, s, kernel) && |s.table| > 0 && Bit(s.table, 0)
    requires FirstFit(regions, s.table, 1, k, p)
    ensures k == 0 && p == 0
  {
    assert Offset(regions, 0) == 0;
    assert Fits(regions, s.table, 1, 0, 0);
  }

  // ---- A request that nests ----

  lemma PathsAtBoot()
    ensures Path(0xFE5_0000)[..3] == Path(0xFE5_1000)[..3] == [Ix(0), Ix(0), KERNEL_ENTRY]
    ensures Path(0x1000_0000)[..3] == [Ix(0), Ix(0), Ix(128)]
    ensures I4(0x1000_0000) == 0
  {
  }

  /** With the kernel's record at 0xFE5_0000, a block of two megabytes after it
      reaches page 0x1000_0000.  The record's page and the next one have a page
      table, that page has none: its update calls `mem_alloc`. */
  lemma BootRequestNests(s: Pages, p: Word)
    requires s.root == PML4 && FilterOk(s.filter) && BootMemory(s.mem)
    ensures HasTable(s, 0xFE5_0000) && HasTable(s, 0xFE5_1000) && !HasTable(s, 0x1000_0000)
    ensures CanMap(s, 0x1000_0000, 0) ==> |MapPage(s, 0x1000_0000, p, 1, 0).supply| < |s.supply|
  {
    hide GraphOf, BootMemory, FilterOk, Path, MapPage, Ready, I4;
    var g := GraphOf(s.mem, s.filter);
    PathsAtBoot();
    BootEdges(s.mem, s.filter, Ix(0));
    BootEdges(s.mem, s.filter, KERNEL_ENTRY);
    BootEdges(s.mem, s.filter, Ix(128));
    ThreeSteps(g, PML4, Ix(0), Ix(0), KERNEL_ENTRY);
    ThreeSteps(g, PML4, Ix(0), Ix(0), Ix(128));
    if CanMap(s, 0x1000_0000, 0) {
      NoNestedAllocationIff(s, 0x1000_0000, p, 1, 0);
      MapTakesSpares(s, 0x1000_0000, p, 1, 0);
    }
  }

  lemma ThreeSteps(g: Graph, t: Addr, i: Index, j: Index, k: Index)
    ensures Descend(g, t, [i, j, k]) ==
            match Next(g, t, i)
            case None => None
            case Some(a) =>
              match Next(g, a, j)
              case None => None
              case Some(b) => Next(g, b, k)
  {
    assert [i, j, k] == [i] + [j] + [k] && [i] == [] + [i];
    DescendSnoc(g, t, [], i);
    DescendSnoc(g, t, [i], j);
    DescendSnoc(g, t, [i] + [j], k);
  }

  // ---- The first slot outside the root table ----

  lemma SlotSixtyFour(f: Word)
    requires FilterOk(f)
    ensures var v := Mask(0x2000_0000_0000, f);
            && At(MapSlot4(PML4.word, v)) == Cell(PDPT, Ix(0))
            && At(Slot(PD.word, I3(v))) == Cell(PD, Ix(0))
            && At(Slot(LOW_PT.word, I2(v))) == Cell(LOW_PT, Ix(0))
            && At(Slot(0, I1(v))) == At(0)
    ensures Cell(PML4, Ix(64)) != At(0) && Path(0x2000_0000_0000) == [Ix(64), Ix(0), Ix(0), Ix(0)]
  {
  }

  /** On the boot code's tables an update of the first page of slot 64 takes the
      PDPT for an entry of the root table, and so on down to the contents of page
      0: it overwrites the word at address 0, and the page stays unmapped. */
  lemma SlotSixtyFourWritesPageZero(s: Pages, p: Word, flags: bv8, prot: bv8)
    requires s.root == PML4 && FilterOk(s.filter) && BootMemory(s.mem) && Entry(s.mem, LOW_PT, Ix(0)) == 0x3
    requires |s.backup| == 3 && |s.supply| >= 3
    ensures var s' := Update(s, 0x2000_0000_0000, p, flags, prot);
            && s' == s.(mem := s.mem[At(0) := LeafEntry(s.filter, flags, p, prot)])
            && Frame(s', 0x2000_0000_0000) == None
  {
    hide FilterOk, Target, Present, Aligned, Path, LeafEntry, TableEntry, Mask, Slot, MapSlot4, I3, I2, I1, GraphOf;
    hide Cell, BootMemory;
    var f := s.filter;
    var s' := s.(mem := s.mem[At(0) := LeafEntry(f, flags, p, prot)]);
    SlotSixtyFour(f);
    BootEntries(f);
    MaskedPageZero(f);
    LeafMask(f, flags, p, prot);
    BootEntry(s.mem, Ix(0));
    BootEntry(s.mem, Ix(64));
    assert LinkStep(s, 0, Cell(PDPT, Ix(0)), flags, prot) == s && LinkStep(s, 1, Cell(PD, Ix(0)), flags, prot) == s;
    assert LinkStep(s, 2, Cell(LOW_PT, Ix(0)), flags, prot) == s;
    assert Update(s, 0x2000_0000_0000, p, flags, prot) == s';
    assert Entry(s'.mem, PML4, Ix(64)) == Entry(s.mem, PML4, Ix(64)) == 0;
    NextOf(s'.mem, f, PML4, Ix(64));
  }

  // ---- An update at the kernel's end ----

  lemma KernelPage(f: Word)
    requires FilterOk(f)
    ensures var v := Mask(0xFE5_0000, f);
            && At(MapSlot4(PML4.word, v)) == At(0x70000) == Cell(PML4, Ix(0))
            && At(Slot(PDPT.word, I3(v))) == At(0x71000) == Cell(PDPT, Ix(0))
            && At(Slot(PD.word, I2(v))) == At(0x723F8) == Cell(PD, KERNEL_ENTRY)
            && At(Slot(KERNEL_PT.word, I1(v))) == At(0x76280)
  {
  }

  /** On the boot code's tables the update of page 0xFE5_0000 stores one word, the
      leaf entry, at 0x76280. */
  lemma KernelPageStoresAt(s: Pages, p: Word, flags: bv8, prot: bv8)
    requires s.root == PML4 && FilterOk(s.filter) && BootMemory(s.mem) && |s.backup| == 3 && |s.supply| >= 3
    ensures Update(s, 0xFE5_0000, p, flags, prot) ==
            s.(mem := s.mem[At(0x76280) := LeafEntry(s.filter, flags, p, prot)])
  {
    hide FilterOk, Target, Present, Aligned, LeafEntry, TableEntry, Mask, Slot, MapSlot4, I3, I2, I1, Cell, BootMemory;
    KernelPage(s.filter);
    BootEntries(s.filter);
    BootEntry(s.mem, Ix(0));
    BootEntry(s.mem, KERNEL_ENTRY);
    LeafMask(s.filter, flags, p, prot);
    assert LinkStep(s, 0, Cell(PML4, Ix(0)), flags, prot) == s && LinkStep(s, 1, Cell(PDPT, Ix(0)), flags, prot) == s;
    assert LinkStep(s, 2, Cell(PD, KERNEL_ENTRY), flags, prot) == s;
  }
}
