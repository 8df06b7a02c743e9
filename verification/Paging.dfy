/** What backing pages with frames does to the page map and to the frame table
    together (kernel/src/code/mem/alloc.c lines 30-46). */
module Paging {
  import opened Options
  import opened PageEntry
  import opened Radix
  import opened PageTables
  import opened PageMapping
  import opened PageBits
  import opened Words
  import opened Bitmap
  import opened MemoryMap
  import opened FrameTable

  /** RAM entries start on page boundaries and end below 2^48. */
  ghost predicate Backable(regions: seq<Region>) {
    && WellFormed(regions)
    && forall k :: 0 <= k < |regions| && regions[k].kind == RAM ==>
         regions[k].base % 0x1000 == 0 && regions[k].base + regions[k].length <= 0x1000 * FRAMES
  }

  /** Page `index` of entry `region`. */
  datatype RamPage = RamPage(region: nat, index: nat)

  ghost predicate IsRam(regions: seq<Region>, r: RamPage) {
    r.region < |regions| && regions[r.region].kind == RAM && r.index < 8 * Share(regions[r.region])
  }

  /** A page that the scan of an allocation reaches. */
  ghost predicate IsScanned(regions: seq<Region>, r: RamPage) {
    IsRam(regions, r) && r.index < Scanned(regions[r.region])
  }

  function BitAt(regions: seq<Region>, r: RamPage): nat
    requires r.region < |regions|
  {
    8 * Offset(regions, r.region) + r.index
  }

  function FrameNumber(regions: seq<Region>, r: RamPage): nat
    requires r.region < |regions|
  {
    regions[r.region].base / 0x1000 + r.index
  }

  lemma FrameInRange(regions: seq<Region>, r: RamPage)
    requires Backable(regions) && IsRam(regions, r)
    ensures FrameNumber(regions, r) < FRAMES
    ensures AddressOf(regions, r.region, r.index) == 0x1000 * FrameNumber(regions, r)
  {
  }

  lemma FrameNumbersDiffer(regions: seq<Region>, a: RamPage, b: RamPage)
    requires Backable(regions) && IsRam(regions, a) && IsRam(regions, b) && a != b
    ensures FrameNumber(regions, a) != FrameNumber(regions, b)
  {
    var ra, rb := regions[a.region], regions[b.region];
    if a.region < b.region { assert Apart(ra, rb); }
    if b.region < a.region { assert Apart(rb, ra); }
  }

  /** The page map and the frame table. */
  datatype Store = Store(pages: Pages, table: Bytes)

  ghost function FrameOf(s: Store, n: nat): Option<Addr>
    requires n < LOW_PAGES
  {
    Frame(s.pages, PageWord(n))
  }

  /** Every page that meets `start..end` has a frame. */
  ghost predicate Backed(s: Store, start: nat, end: nat) {
    end <= 0x1000 * LOW_PAGES && forall n: nat :: start / 0x1000 <= n && 0x1000 * n < end ==> FrameOf(s, n).Some?
  }

  /** All pages of `given` meet `start..end`. */
  predicate Meet(given: map<nat, RamPage>, start: nat, end: nat) {
    forall n :: n in given ==> start / 0x1000 <= n && 0x1000 * n < end
  }

  /** Page `n` was unmapped and now has the RAM page `r`, which was free. */
  ghost predicate BackedBy(regions: seq<Region>, a: Store, b: Store, n: nat, r: RamPage) {
    && n < LOW_PAGES && IsScanned(regions, r) && FrameNumber(regions, r) < FRAMES
    && BitAt(regions, r) < 8 * |a.table| && |b.table| == |a.table|
    && FrameOf(a, n) == None
    && FrameOf(b, n) == Some(At(FrameWord(FrameNumber(regions, r))))
    && Bit(a.table, BitAt(regions, r)) && !Bit(b.table, BitAt(regions, r))
  }

  ghost predicate Untouched(given: map<nat, RamPage>, w: Word) {
    forall n :: n in given && n < LOW_PAGES ==> PageOf(PageWord(n)) != PageOf(w)
  }

  ghost predicate TakenFor(regions: seq<Region>, given: map<nat, RamPage>, i: nat) {
    exists n :: n in given && given[n].region < |regions| && BitAt(regions, given[n]) == i
  }

  /** From `a` to `b` exactly the pages of `given` were mapped, each to a free RAM
      page of its own, and none was freed. */
  ghost predicate Gives(regions: seq<Region>, a: Store, b: Store, given: map<nat, RamPage>) {
    && |b.table| == |a.table|
    && (forall n :: n in given ==> BackedBy(regions, a, b, n, given[n]))
    && (forall n, m :: n in given && m in given && n != m ==> given[n] != given[m])
    && (forall w :: Untouched(given, w) ==> Frame(b.pages, w) == Frame(a.pages, w))
    && (forall i: nat :: i < 8 * |a.table| && Bit(b.table, i) ==> Bit(a.table, i))
  }

  /** ... and exactly those RAM pages were taken. */
  ghost predicate Backs(regions: seq<Region>, a: Store, b: Store, given: map<nat, RamPage>) {
    && Gives(regions, a, b, given)
    && (forall i: nat :: i < 8 * |a.table| && Bit(a.table, i) && !Bit(b.table, i) ==> TakenFor(regions, given, i))
  }

  lemma BacksGives(regions: seq<Region>, a: Store, b: Store, given: map<nat, RamPage>)
    requires Backs(regions, a, b, given)
    ensures Gives(regions, a, b, given)
  {
  }

  lemma BacksNothing(regions: seq<Region>, a: Store)
    ensures Backs(regions, a, a, map[])
  {
  }

  lemma GivenIsMapped(regions: seq<Region>, a: Store, b: Store, given: map<nat, RamPage>, n: nat)
    requires Gives(regions, a, b, given) && n in given
    ensures n < LOW_PAGES && FrameOf(b, n).Some?
  {
    assert BackedBy(regions, a, b, n, given[n]);
  }

  /** Frames handed to different pages differ. */
  lemma DistinctFrames(regions: seq<Region>, a: Store, b: Store, given: map<nat, RamPage>, n: nat, m: nat)
    requires Backable(regions) && FilterOk(b.pages.filter) && Gives(regions, a, b, given) && n in given && m in given
    requires n != m
    ensures n < LOW_PAGES && m < LOW_PAGES && FrameOf(b, n).Some? && FrameOf(b, m).Some?
    ensures FrameOf(b, n) != FrameOf(b, m)
  {
    assert BackedBy(regions, a, b, n, given[n]) && BackedBy(regions, a, b, m, given[m]);
    FrameNumbersDiffer(regions, given[n], given[m]);
    FrameWords(FrameNumber(regions, given[n]), FrameNumber(regions, given[m]), b.pages.filter);
  }

  /** Backing pages changes no mapping that was there. */
  lemma MappingsStay(regions: seq<Region>, a: Store, b: Store, given: map<nat, RamPage>, w: Word)
    requires Gives(regions, a, b, given) && Frame(a.pages, w).Some?
    ensures Frame(b.pages, w) == Frame(a.pages, w)
  {
    forall n | n in given && n < LOW_PAGES ensures PageOf(PageWord(n)) != PageOf(w) {
      assert BackedBy(regions, a, b, n, given[n]);
      SamePath(PageWord(n), w);
    }
    assert Untouched(given, w);
  }

  // ---- Frames mapped before ----

  /** The page of `w` is mapped to the RAM page `r`. */
  ghost predicate MapsRam(regions: seq<Region>, s: Store, w: Word, r: RamPage) {
    && IsRam(regions, r) && FrameNumber(regions, r) < FRAMES
    && Frame(s.pages, w) == Some(At(FrameWord(FrameNumber(regions, r))))
  }

  /** A page check gives its page a frame that some page had before exactly if the
      RAM page it took was mapped. */
  lemma NewFrameIsSharedIff(regions: seq<Region>, a: Store, b: Store, given: map<nat, RamPage>, n: nat)
    requires Gives(regions, a, b, given) && n in given
    ensures n < LOW_PAGES
    ensures (exists w :: Frame(a.pages, w).Some? && Frame(b.pages, w) == FrameOf(b, n)) <==>
            (exists w :: MapsRam(regions, a, w, given[n]))
  {
    assert BackedBy(regions, a, b, n, given[n]);
    forall w | Frame(a.pages, w).Some?
      ensures Frame(b.pages, w) == FrameOf(b, n) <==> MapsRam(regions, a, w, given[n])
    {
      MappingsStay(regions, a, b, given, w);
    }
    forall w | MapsRam(regions, a, w, given[n]) ensures Frame(a.pages, w).Some? {}
  }

  /** No mapped RAM page within reach of the scan is marked free. */
  ghost predicate MappedAreTaken(regions: seq<Region>, s: Store) {
    forall w, r ::
      MapsRam(regions, s, w, r) && IsScanned(regions, r) && BitAt(regions, r) < 8 * |s.table| ==>
        !Bit(s.table, BitAt(regions, r))
  }

  /** From such a state a new frame differs from every frame mapped before. */
  lemma NewFramesAreNew(regions: seq<Region>, a: Store, b: Store, given: map<nat, RamPage>, n: nat, w: Word)
    requires MappedAreTaken(regions, a) && Gives(regions, a, b, given) && n in given && Frame(a.pages, w).Some?
    ensures n < LOW_PAGES && FrameOf(b, n) != Frame(b.pages, w)
  {
    assert BackedBy(regions, a, b, n, given[n]);
    NewFrameIsSharedIff(regions, a, b, given, n);
    assert forall x :: !MapsRam(regions, a, x, given[n]);
  }

  /** ... and backing pages leaves such a state. */
  lemma BackingKeepsTaken(regions: seq<Region>, a: Store, b: Store, given: map<nat, RamPage>)
    requires Backable(regions) && FilterOk(b.pages.filter) && MappedAreTaken(regions, a) && Gives(regions, a, b, given)
    ensures MappedAreTaken(regions, b)
  {
    hide Frame, FrameWord, PageWord, PageOf, FilterOk, Backable;
    forall w, r | MapsRam(regions, b, w, r) && IsScanned(regions, r) && BitAt(regions, r) < 8 * |b.table|
      ensures !Bit(b.table, BitAt(regions, r))
    {
      if Untouched(given, w) {
        assert MapsRam(regions, a, w, r);
      } else {
        var n :| n in given && n < LOW_PAGES && PageOf(PageWord(n)) == PageOf(w);
        assert BackedBy(regions, a, b, n, given[n]);
        SamePageSameFrame(b.pages, PageWord(n), w);
        FrameWords(FrameNumber(regions, r), FrameNumber(regions, given[n]), b.pages.filter);
        if r != given[n] { FrameNumbersDiffer(regions, r, given[n]); }
      }
    }
  }

  lemma SamePageSameFrame(s: Pages, v: Word, w: Word)
    requires PageOf(v) == PageOf(w)
    ensures Frame(s, v) == Frame(s, w)
  {
    SamePath(v, w);
  }

  // ---- Composition ----

  lemma UntouchedPage(given: map<nat, RamPage>, n: nat)
    requires n < LOW_PAGES
    ensures Untouched(given, PageWord(n)) <==> n !in given
  {
    forall m | m in given && m < LOW_PAGES ensures PageOf(PageWord(m)) == PageOf(PageWord(n)) <==> m == n {
      PageWords(m, n);
    }
  }

  lemma GivenOnce(regions: seq<Region>, a: Store, b: Store, c: Store, f: map<nat, RamPage>, g: map<nat, RamPage>,
                  n: nat)
    requires Gives(regions, a, b, f) && Gives(regions, b, c, g) && n in f
    ensures n !in g
  {
    assert n in g ==> BackedBy(regions, b, c, n, g[n]);
    assert BackedBy(regions, a, b, n, f[n]);
  }

  lemma ComposeFirst(regions: seq<Region>, a: Store, b: Store, c: Store, f: map<nat, RamPage>, g: map<nat, RamPage>,
                     n: nat)
    requires Gives(regions, a, b, f) && Gives(regions, b, c, g) && n in f
    ensures n !in g && BackedBy(regions, a, c, n, f[n])
  {
    GivenOnce(regions, a, b, c, f, g, n);
    assert BackedBy(regions, a, b, n, f[n]);
    UntouchedPage(g, n);
  }

  lemma ComposeSecond(regions: seq<Region>, a: Store, b: Store, c: Store, f: map<nat, RamPage>, g: map<nat, RamPage>,
                      n: nat)
    requires Gives(regions, a, b, f) && Gives(regions, b, c, g) && n in g
    ensures n !in f && BackedBy(regions, a, c, n, g[n])
  {
    if n in f { GivenOnce(regions, a, b, c, f, g, n); }
    assert BackedBy(regions, b, c, n, g[n]);
    UntouchedPage(f, n);
  }

  lemma GivenDiffer(regions: seq<Region>, a: Store, b: Store, c: Store, f: map<nat, RamPage>, g: map<nat, RamPage>,
                    n: nat, m: nat)
    requires Gives(regions, a, b, f) && Gives(regions, b, c, g) && n in f && m in g
    ensures f[n] != g[m]
  {
    assert BackedBy(regions, a, b, n, f[n]) && BackedBy(regions, b, c, m, g[m]);
  }

  lemma ComposeFrames(regions: seq<Region>, a: Store, b: Store, c: Store, f: map<nat, RamPage>, g: map<nat, RamPage>,
                      w: Word)
    requires Gives(regions, a, b, f) && Gives(regions, b, c, g) && Untouched(f + g, w)
    ensures Frame(c.pages, w) == Frame(a.pages, w)
  {
    hide PageWord, PageOf, Frame, BackedBy, TakenFor;
    forall n | n in f && n < LOW_PAGES ensures PageOf(PageWord(n)) != PageOf(w) { assert n in f + g; }
    forall n | n in g && n < LOW_PAGES ensures PageOf(PageWord(n)) != PageOf(w) { assert n in f + g; }
    assert Untouched(f, w) && Untouched(g, w);
  }

  lemma ComposeTaken(regions: seq<Region>, a: Store, b: Store, c: Store, f: map<nat, RamPage>, g: map<nat, RamPage>,
                     i: nat)
    requires Backs(regions, a, b, f) && Backs(regions, b, c, g)
    requires forall n :: n in f ==> n !in g
    requires i < 8 * |a.table| && Bit(a.table, i) && !Bit(c.table, i)
    ensures TakenFor(regions, f + g, i)
  {
    hide BackedBy, Untouched;
    if Bit(b.table, i) {
      assert TakenFor(regions, g, i);
      var n :| n in g && g[n].region < |regions| && BitAt(regions, g[n]) == i;
      assert n in f + g && (f + g)[n] == g[n];
    } else {
      assert TakenFor(regions, f, i);
      var n :| n in f && f[n].region < |regions| && BitAt(regions, f[n]) == i;
      assert n in f + g && (f + g)[n] == f[n];
    }
  }

  lemma ComposeGives(regions: seq<Region>, a: Store, b: Store, c: Store, f: map<nat, RamPage>, g: map<nat, RamPage>)
    requires Gives(regions, a, b, f) && Gives(regions, b, c, g)
    ensures Gives(regions, a, c, f + g)
    ensures f.Keys !! g.Keys
  {
    hide BackedBy, Untouched;
    var h := f + g;
    forall n | n in f ensures n !in g && BackedBy(regions, a, c, n, f[n]) { ComposeFirst(regions, a, b, c, f, g, n); }
    forall n | n in g ensures BackedBy(regions, a, c, n, g[n]) { ComposeSecond(regions, a, b, c, f, g, n); }
    forall n, m | n in f && m in g ensures f[n] != g[m] { GivenDiffer(regions, a, b, c, f, g, n, m); }
    forall w | Untouched(h, w) ensures Frame(c.pages, w) == Frame(a.pages, w) {
      ComposeFrames(regions, a, b, c, f, g, w);
    }
  }

  /** Backing some pages and then others is backing both. */
  lemma Compose(regions: seq<Region>, a: Store, b: Store, c: Store, f: map<nat, RamPage>, g: map<nat, RamPage>)
    requires Backs(regions, a, b, f) && Backs(regions, b, c, g)
    ensures Backs(regions, a, c, f + g)
    ensures f.Keys !! g.Keys
  {
    hide BackedBy, TakenFor, Untouched;
    ComposeGives(regions, a, b, c, f, g);
    forall i: nat | i < 8 * |a.table| && Bit(a.table, i) && !Bit(c.table, i) ensures TakenFor(regions, f + g, i) {
      ComposeTaken(regions, a, b, c, f, g, i);
    }
  }

  // ---- One page ----

  lemma NoProt(f: Word)
    ensures ProtClear(0, f)
  {
  }

  /** The page map after `page_map_PML4(page, frame, 1, 0)`. */
  function MapLow(s: Pages, n: nat, frame: nat): Pages
    requires n < LOW_PAGES && frame < FRAMES && CanMap(s, PageWord(n), 0)
  {
    MapPage(s, PageWord(n), FrameWord(frame), 1, 0)
  }

  lemma MapLowFrame(s: Pages, n: nat, frame: nat, w: Word)
    requires n < LOW_PAGES && frame < FRAMES && CanMap(s, PageWord(n), 0)
    ensures Frame(MapLow(s, n, frame), w) ==
            if PageOf(w) == PageOf(PageWord(n)) then Some(At(FrameWord(frame))) else Frame(s, w)
  {
    hide PageWord, FrameWord, PageOf, Alias, Frame, MapPage, Mask, I4;
    MapRefinesFlatUpdate(s, PageWord(n), FrameWord(frame), 1, 0, w);
    PageWords(n, n);
    AliasSame(PageWord(n));
    FrameWords(frame, frame, s.filter);
  }

  /** Page `n` of `s` is unmapped and may be mapped, and `s'` is `s` with that page
      at `addr`. */
  ghost predicate MapsLow(s: Pages, s': Pages, n: nat, addr: nat) {
    && n < LOW_PAGES && CanMap(s, PageWord(n), 0) && Frame(s, PageWord(n)) == None
    && (addr / 0x1000 < FRAMES ==> s' == MapLow(s, n, addr / 0x1000))
  }

  /** A page handed out is a whole frame below 2^48. */
  lemma AllocatedFrame(regions: seq<Region>, t: Bytes, t': Bytes, addr: nat, k: nat, p: nat)
    requires Backable(regions) && AllocStep(regions, t, t', 1, 0, addr, k, p)
    ensures addr == 0x1000 * (addr / 0x1000) && addr / 0x1000 < FRAMES
  {
    assert Fits(regions, t, 1, k, p);
    FrameInRange(regions, RamPage(k, p));
  }

  /** A page check of the unmapped page `n` took page `p` of entry `k`. */
  ghost predicate Checks(regions: seq<Region>, a: Store, b: Store, n: nat, addr: nat, k: nat, p: nat) {
    && AllocStep(regions, a.table, b.table, 1, 0, addr, k, p)
    && MapsLow(a.pages, b.pages, n, addr)
  }

  function Only(n: nat, r: RamPage): map<nat, RamPage> { map[n := r] }

  /** One allocation of one page, mapped at an unmapped page. */
  lemma BacksOne(regions: seq<Region>, a: Store, b: Store, n: nat, addr: nat, k: nat, p: nat)
    requires Backable(regions) && Checks(regions, a, b, n, addr, k, p)
    ensures Backs(regions, a, b, Only(n, RamPage(k, p)))
  {
    hide PageWord, FrameWord, PageOf, CanMap, MapLow, Frame, FirstFit;
    var r := RamPage(k, p);
    assert Fits(regions, a.table, 1, k, p) by { FirstFitFits(regions, a.table, 1, k, p); }
    FrameInRange(regions, r);
    var frame := FrameNumber(regions, r);
    assert addr / 0x1000 == frame;
    forall w
      ensures Frame(b.pages, w) ==
              if PageOf(w) == PageOf(PageWord(n)) then Some(At(FrameWord(frame))) else Frame(a.pages, w)
    {
      MapLowFrame(a.pages, n, frame, w);
    }
    var given := Only(n, r);
    assert Bit(a.table, BitAt(regions, r));
    assert BackedBy(regions, a, b, n, r);
    forall w | Untouched(given, w) ensures Frame(b.pages, w) == Frame(a.pages, w) {
      assert n in given;
    }
    forall i: nat | i < 8 * |a.table| && Bit(a.table, i) && !Bit(b.table, i) ensures TakenFor(regions, given, i) {
      assert i == BitAt(regions, r);
      assert n in given && given[n] == r;
    }
  }

  /** The page-table entries of all pages of `given`, as page checks store them:
      present, writable and no other flag, and the frame of the RAM page given. */
  ghost predicate GivenLeaves(regions: seq<Region>, s: Pages, given: map<nat, RamPage>) {
    forall n :: n in given ==>
      && n < LOW_PAGES && given[n].region < |regions| && FrameNumber(regions, given[n]) < FRAMES
      && Frame(s, PageWord(n)).Some?
      && WordAt(s, Path(PageWord(n)), 3) == LeafEntry(s.filter, 1, FrameWord(FrameNumber(regions, given[n])), 0)
  }

  lemma CheckedLeaf(regions: seq<Region>, a: Store, b: Store, n: nat, addr: nat, k: nat, p: nat)
    requires Backable(regions) && Checks(regions, a, b, n, addr, k, p)
    ensures GivenLeaves(regions, b.pages, Only(n, RamPage(k, p))) && LeavesStay(a.pages, b.pages)
    ensures b.pages.filter == a.pages.filter
  {
    hide Frame, PageWord, FrameWord, Path, WordAt, LeafEntry, Backable, CanMap, MapPage, AllocStep, LeavesStay;
    BacksOne(regions, a, b, n, addr, k, p);
    AllocatedFrame(regions, a.table, b.table, addr, k, p);
    PageWords(n, n);
    MapKeepsLeaves(a.pages, PageWord(n), FrameWord(addr / 0x1000), 1, 0);
    MapStoresLeaf(a.pages, PageWord(n), FrameWord(addr / 0x1000), 1, 0);
    MapKeepsReady(a.pages, PageWord(n), FrameWord(addr / 0x1000), 1, 0);
    GivenIsMapped(regions, a, b, Only(n, RamPage(k, p)), n);
    assert addr / 0x1000 == FrameNumber(regions, RamPage(k, p)) by { CheckedFrame(regions, a, b, n, addr, k, p); }
  }

  lemma CheckedFrame(regions: seq<Region>, a: Store, b: Store, n: nat, addr: nat, k: nat, p: nat)
    requires Backable(regions) && Checks(regions, a, b, n, addr, k, p)
    ensures k < |regions| && addr / 0x1000 == FrameNumber(regions, RamPage(k, p))
  {
    hide Frame, MapsLow;
    FirstFitFits(regions, a.table, 1, k, p);
    FrameInRange(regions, RamPage(k, p));
  }

  lemma LeavesRemain(regions: seq<Region>, s: Pages, s': Pages, given: map<nat, RamPage>, more: map<nat, RamPage>)
    requires GivenLeaves(regions, s, given) && LeavesStay(s, s') && s'.filter == s.filter
    requires GivenLeaves(regions, s', more)
    ensures GivenLeaves(regions, s', given + more)
  {
    hide Frame, PageWord, FrameWord, Path, WordAt, LeafEntry;
  }

  /** A page check of an unmapped page shares a frame exactly if the first page the
      scan finds is mapped already. */
  lemma CheckSharesIff(regions: seq<Region>, a: Store, b: Store, n: nat, addr: nat, k: nat, p: nat)
    requires Backable(regions) && Checks(regions, a, b, n, addr, k, p)
    ensures n < LOW_PAGES
    ensures (exists w :: Frame(a.pages, w).Some? && Frame(b.pages, w) == Frame(b.pages, PageWord(n))) <==>
            (exists w :: MapsRam(regions, a, w, RamPage(k, p)))
  {
    hide Frame, PageWord, Backable, MapsRam, Checks;
    BacksOne(regions, a, b, n, addr, k, p);
    NewFrameIsSharedIff(regions, a, b, Only(n, RamPage(k, p)), n);
  }

  lemma FirstFitFits(regions: seq<Region>, t: Bytes, n: nat, k: nat, s: nat)
    requires FirstFit(regions, t, n, k, s)
    ensures k < |regions| && Fits(regions, t, n, k, s)
  {
  }

  /** In the upper top-level slots a check of an unmapped page takes a frame and
      leaves the page unmapped. */
  lemma UpperPageTakesFrameInVain(regions: seq<Region>, a: Store, b: Store, v: Word, addr: nat, k: nat, p: nat)
    requires Backable(regions) && CanMap(a.pages, v, 0) && I4(v) != 0 && Frame(a.pages, v) == None
    requires AllocStep(regions, a.table, b.table, 1, 0, addr, k, p)
    requires addr / 0x1000 < FRAMES ==> b.pages == MapPage(a.pages, v, FrameWord(addr / 0x1000), 1, 0)
    ensures Frame(b.pages, v) == None && Count(b.table) + 1 == Count(a.table)
  {
    hide MapPage, Frame, CanMap, FrameWord, FirstFit;
    FirstFitFits(regions, a.table, 1, k, p);
    FrameInRange(regions, RamPage(k, p));
    UpperPageStaysUnmapped(a.pages, v, FrameWord(addr / 0x1000), 1, 0);
    CountAfter(a.table, b.table, 8 * Offset(regions, k) + p, 1, false);
  }

  // ---- Page tables ----

  /** Page tables that exist stay, and new ones come with a spare only. */
  ghost predicate TablesGrow(s: Pages, s': Pages) {
    && |s'.supply| <= |s.supply|
    && (forall m: nat :: m < LOW_PAGES && HasTable(s, PageWord(m)) ==> HasTable(s', PageWord(m)))
    && (|s'.supply| == |s.supply| ==>
          forall m: nat :: m < LOW_PAGES && HasTable(s', PageWord(m)) ==> HasTable(s, PageWord(m)))
  }

  lemma MapLowTables(s: Pages, n: nat, frame: nat)
    requires n < LOW_PAGES && frame < FRAMES && CanMap(s, PageWord(n), 0)
    ensures TablesGrow(s, MapLow(s, n, frame))
    ensures |MapLow(s, n, frame).supply| == |s.supply| <==> HasTable(s, PageWord(n))
  {
    hide PageWord, FrameWord, CanMap, MapPage, HasTable, I4;
    var v, p := PageWord(n), FrameWord(frame);
    var s' := MapPage(s, v, p, 1, 0);
    PageWords(n, n);
    MapTakesSpares(s, v, p, 1, 0);
    NoNestedAllocationIff(s, v, p, 1, 0);
    forall m: nat | m < LOW_PAGES && HasTable(s, PageWord(m)) ensures HasTable(s', PageWord(m)) {
      MapKeepsTables(s, v, p, 1, 0, PageWord(m));
    }
    if |s'.supply| == |s.supply| {
      forall m: nat | m < LOW_PAGES && HasTable(s', PageWord(m)) ensures HasTable(s, PageWord(m)) {
        MapAddsNoTable(s, v, p, 1, 0, PageWord(m));
      }
    }
  }

  // ---- Runs ----

  /** A page check that mapped `given`, or another `mem_palloc` of `count` pages
      from page `start` of entry `region` on. */
  datatype Event = Checked(given: map<nat, RamPage>) | Taken(count: nat, region: nat, start: nat)

  function GivenBy(e: Event): map<nat, RamPage> {
    if e.Checked? then e.given else map[]
  }

  ghost predicate Happens(regions: seq<Region>, a: Store, e: Event, b: Store) {
    match e
    case Checked(given) => Backs(regions, a, b, given)
    case Taken(count, region, start) =>
      && b.pages == a.pages && region < |regions|
      && AllocStep(regions, a.table, b.table, count, 0, AddressOf(regions, region, start), region, start)
  }

  /** `states` are the states between the events. */
  ghost predicate Calls(regions: seq<Region>, states: seq<Store>, events: seq<Event>)
    decreases |events|
  {
    var n := |events|;
    && |states| == n + 1
    && (n > 0 ==>
          && Happens(regions, states[n - 1], events[n - 1], states[n])
          && Calls(regions, states[..n], events[..n - 1]))
  }

  function All(events: seq<Event>): map<nat, RamPage> {
    if events == [] then map[] else All(events[..|events| - 1]) + GivenBy(events[|events| - 1])
  }

  /** The event is an allocation that took bit `i`. */
  predicate Covers(regions: seq<Region>, e: Event, i: nat) {
    && e.Taken? && e.region < |regions|
    && 8 * Offset(regions, e.region) + e.start <= i < 8 * Offset(regions, e.region) + e.start + e.count
  }

  ghost predicate Covered(regions: seq<Region>, events: seq<Event>, i: nat) {
    exists j :: 0 <= j < |events| && Covers(regions, events[j], i)
  }

  /** From `a` to `b` the pages of `given` were mapped, and each bit cleared was
      cleared for one of them or by one of the allocations, never both. */
  ghost predicate Accounts(regions: seq<Region>, a: Store, b: Store, given: map<nat, RamPage>, events: seq<Event>) {
    && Gives(regions, a, b, given)
    && (forall i: nat :: i < 8 * |a.table| && Covered(regions, events, i) ==>
          Bit(a.table, i) && !Bit(b.table, i) && !TakenFor(regions, given, i))
    && (forall i: nat :: i < 8 * |a.table| && Bit(a.table, i) && !Bit(b.table, i) ==>
          TakenFor(regions, given, i) || Covered(regions, events, i))
  }

  lemma CoveredNext(regions: seq<Region>, events: seq<Event>, e: Event, i: nat)
    ensures Covered(regions, events + [e], i) <==> Covered(regions, events, i) || Covers(regions, e, i)
  {
    var es := events + [e];
    if Covered(regions, events, i) {
      var j :| 0 <= j < |events| && Covers(regions, events[j], i);
      assert es[j] == events[j];
    }
    if Covers(regions, e, i) { assert es[|events|] == e; }
  }

  lemma TakenForBoth(regions: seq<Region>, f: map<nat, RamPage>, g: map<nat, RamPage>, i: nat)
    requires f.Keys !! g.Keys
    ensures TakenFor(regions, f + g, i) <==> TakenFor(regions, f, i) || TakenFor(regions, g, i)
  {
    if TakenFor(regions, f, i) {
      var n :| n in f && f[n].region < |regions| && BitAt(regions, f[n]) == i;
      assert n in f + g && (f + g)[n] == f[n];
    }
    if TakenFor(regions, g, i) {
      var n :| n in g && g[n].region < |regions| && BitAt(regions, g[n]) == i;
      assert n in f + g && (f + g)[n] == g[n];
    }
  }

  /** What a page was given was free before and is taken afterwards. */
  lemma GivenBit(regions: seq<Region>, a: Store, b: Store, given: map<nat, RamPage>, i: nat)
    requires Gives(regions, a, b, given) && TakenFor(regions, given, i)
    ensures i < 8 * |a.table| && |b.table| == |a.table| && Bit(a.table, i) && !Bit(b.table, i)
  {
    var n :| n in given && given[n].region < |regions| && BitAt(regions, given[n]) == i;
    assert BackedBy(regions, a, b, n, given[n]);
  }

  lemma TakenGives(regions: seq<Region>, a: Store, e: Event, b: Store)
    requires Happens(regions, a, e, b)
    ensures Gives(regions, a, b, GivenBy(e))
    ensures forall i: nat :: i < 8 * |a.table| && Bit(a.table, i) && !Bit(b.table, i) ==>
              TakenFor(regions, GivenBy(e), i) || Covers(regions, e, i)
    ensures forall i: nat :: i < 8 * |a.table| && Covers(regions, e, i) ==>
              Bit(a.table, i) && !Bit(b.table, i) && !TakenFor(regions, GivenBy(e), i)
  {
    hide Frame;
  }

  lemma AccountsNext(regions: seq<Region>, a: Store, b: Store, c: Store, f: map<nat, RamPage>, events: seq<Event>,
                     e: Event)
    requires Accounts(regions, a, b, f, events) && Happens(regions, b, e, c)
    ensures Accounts(regions, a, c, f + GivenBy(e), events + [e]) && f.Keys !! GivenBy(e).Keys
  {
    hide Gives, Happens, TakenFor, Covered, Covers;
    var g, es := GivenBy(e), events + [e];
    TakenGives(regions, b, e, c);
    ComposeGives(regions, a, b, c, f, g);
    TableSizes(regions, a, b, f);
    TableSizes(regions, b, c, g);
    forall i: nat | i < 8 * |a.table|
      ensures Covered(regions, es, i) ==> Bit(a.table, i) && !Bit(c.table, i) && !TakenFor(regions, f + g, i)
      ensures Bit(a.table, i) && !Bit(c.table, i) ==> TakenFor(regions, f + g, i) || Covered(regions, es, i)
    {
      CoveredNext(regions, events, e, i);
      TakenForBoth(regions, f, g, i);
      if TakenFor(regions, f, i) { GivenBit(regions, a, b, f, i); }
      if TakenFor(regions, g, i) { GivenBit(regions, b, c, g, i); }
    }
  }

  lemma TableSizes(regions: seq<Region>, a: Store, b: Store, f: map<nat, RamPage>)
    requires Gives(regions, a, b, f)
    ensures |b.table| == |a.table|
    ensures forall i: nat :: i < 8 * |a.table| && Bit(b.table, i) ==> Bit(a.table, i)
  {
  }

  lemma {:induction false} GivenInAll(events: seq<Event>, i: nat)
    requires i < |events|
    ensures GivenBy(events[i]).Keys <= All(events).Keys
    decreases |events|
  {
    var n := |events| - 1;
    if i < n { GivenInAll(events[..n], i); }
  }

  /** Over every run of page checks and other allocations without a free, no page
      is mapped by two checks, and each page of memory taken was taken once: for
      one page or by one of the allocations. */
  lemma {:induction false} RunBacksOnce(regions: seq<Region>, states: seq<Store>, events: seq<Event>)
    requires Calls(regions, states, events)
    ensures Accounts(regions, states[0], states[|events|], All(events), events)
    ensures forall i, j :: 0 <= i < j < |events| ==> GivenBy(events[i]).Keys !! GivenBy(events[j]).Keys
    decreases |events|
  {
    hide Accounts, Happens;
    var n := |events|;
    if n == 0 {
      AccountsNothing(regions, states[0]);
    } else {
      var before := events[..n - 1];
      RunBacksOnce(regions, states[..n], before);
      AccountsNext(regions, states[0], states[n - 1], states[n], All(before), before, events[n - 1]);
      assert before + [events[n - 1]] == events;
      forall i, j | 0 <= i < j < n ensures GivenBy(events[i]).Keys !! GivenBy(events[j]).Keys {
        if j == n - 1 { GivenInAll(before, i); }
        assert before[i] == events[i];
      }
    }
  }

  lemma AccountsNothing(regions: seq<Region>, a: Store)
    ensures Accounts(regions, a, a, map[], [])
  {
    BacksNothing(regions, a);
  }
}
