/** The state that `page_map_PML4` updates, one update as a function of that
    state, and the flat map it refines
    (kernel/src/code/mem/page_map.c lines 94-164). */
module PageMapping {
  import opened PageEntry
  import opened Options
  import opened Radix
  import opened PageTables

  /** `backup` holds the spare tables for the next missing PDPT, page directory
      and page table; `supply` the tables later allocations will return. */
  datatype Pages = Pages(root: Addr, filter: Word, mem: Memory, own: Owners, backup: seq<Addr>, supply: seq<Addr>)

  ghost function GraphIn(s: Pages): Graph {
    GraphOf(s.mem, s.filter)
  }

  ghost predicate TableAt(f: Word, t: Addr) {
    Aligned(t.word) && Mask(t.word, f) == t.word
  }

  /** A spare is an empty table outside the tree. */
  ghost predicate Spare(s: Pages, x: Addr) {
    TableAt(s.filter, x) && x !in s.own && Clear(GraphIn(s), x)
  }

  ghost predicate Distinct(xs: seq<Addr>) {
    forall i, j :: 0 <= i < j < |xs| ==> xs[i] != xs[j]
  }

  ghost predicate Ready(s: Pages) {
    && FilterOk(s.filter)
    && Tree(GraphIn(s), s.root, s.own)
    && (forall t :: t in s.own ==> TableAt(s.filter, t))
    && |s.backup| == 3
    && Distinct(s.backup + s.supply)
    && (forall k :: 0 <= k < 3 ==> Spare(s, s.backup[k]))
    && (forall k :: 0 <= k < |s.supply| ==> Spare(s, s.supply[k]))
  }

  ghost function FullWalk(s: Pages, q: seq<Index>): Option<Addr> {
    Descend(GraphIn(s), s.root, q)
  }

  /** The flat map the tree stands for: the frame of the page of `v`, if any. */
  ghost function Frame(s: Pages, v: Word): Option<Addr> {
    FullWalk(s, Path(v))
  }

  // ---- Linking a spare ----

  /** Lines 100-103, 107-110 and 114-118: link spare `k` if the entry is free,
      and replace the spare. */
  function LinkAt(s: Pages, k: nat, t: Addr, i: Index, flags: bv8, prot: bv8): Pages
    requires k < |s.backup| && t in s.own && |s.supply| >= 1
  {
    if Present(Entry(s.mem, t, i)) then s
    else
      var spare := s.backup[k];
      s.(mem := s.mem[Cell(t, i) := TableEntry(s.filter, flags, spare.word, prot)],
         own := Adopt(s.own, t, i, spare),
         backup := s.backup[k := s.supply[0]],
         supply := s.supply[1..])
  }

  /** One linking step, and the table it leads to. */
  function Grow(s: Pages, k: nat, t: Addr, i: Index, flags: bv8, prot: bv8): (Pages, Addr)
    requires k < |s.backup| && t in s.own && |s.supply| >= 1
  {
    var s' := LinkAt(s, k, t, i, flags, prot);
    (s', Target(s.filter, Entry(s'.mem, t, i)))
  }

  ghost predicate CanLink(s: Pages, k: nat, t: Addr, prot: bv8) {
    Ready(s) && k < 3 && t in s.own && Level(s.own[t]) >= 2 && |s.supply| >= 1 && ProtClear(prot, s.filter)
  }

  ghost predicate Extends(own: Owners, own': Owners) {
    forall t :: t in own ==> t in own' && own'[t] == own[t]
  }

  lemma SpareEntry(f: Word, flags: bv8, x: Addr, prot: bv8)
    requires FilterOk(f) && ProtClear(prot, f) && TableAt(f, x)
    ensures Present(TableEntry(f, flags, x.word, prot))
    ensures Target(f, TableEntry(f, flags, x.word, prot)) == x
  {
    TableDecodes(f, flags, x.word, prot);
  }

  lemma TablesAligned(f: Word, x: Addr)
    requires TableAt(f, x)
    ensures Aligned(x.word)
  {
  }

  /** Linking follows an edge that is there, or adds one to the spare. */
  lemma GrowIsEdge(s: Pages, k: nat, t: Addr, i: Index, flags: bv8, prot: bv8)
    requires CanLink(s, k, t, prot)
    ensures var (s', c) := Grow(s, k, t, i, flags, prot);
            && Next(GraphIn(s'), t, i) == Some(c)
            && if Present(Entry(s.mem, t, i)) then s' == s
            else c == s.backup[k] && Next(GraphIn(s), t, i) == None && Edge(GraphIn(s), GraphIn(s'), t, i, c)
  {
    hide GraphOf, TableEntry, FilterOk, ProtClear, TableAt, Aligned, Present, Slot, Tree, Clear;
    TablesAligned(s.filter, t);
    NextOf(s.mem, s.filter, t, i);
    if !Present(Entry(s.mem, t, i)) {
      var x := s.backup[k];
      assert Spare(s, x);
      SpareEntry(s.filter, flags, x, prot);
      StoreIsEdge(s.mem, s.filter, t, i, TableEntry(s.filter, flags, x.word, prot));
    }
  }

  lemma SpareSurvivesEdge(s: Pages, s': Pages, t: Addr, i: Index, c: Addr, x: Addr)
    requires Spare(s, x) && x != t && Edge(GraphIn(s), GraphIn(s'), t, i, c)
    requires s'.filter == s.filter && x !in s'.own
    ensures Spare(s', x)
  {
    forall j ensures Next(GraphIn(s'), x, j) == None {
      assert Next(GraphIn(s'), x, j) == Next(GraphIn(s), x, j);
    }
  }

  lemma DistinctAfterLink(backup: seq<Addr>, supply: seq<Addr>, k: nat)
    requires |backup| == 3 && k < 3 && |supply| >= 1 && Distinct(backup + supply)
    ensures Distinct(backup[k := supply[0]] + supply[1..])
    ensures forall j :: 0 <= j < 3 && j != k ==> backup[j] != backup[k]
    ensures forall j :: 0 <= j < |supply| ==> supply[j] != backup[k]
  {
    var before, after := backup + supply, backup[k := supply[0]] + supply[1..];
    forall j | 0 <= j < |supply| ensures supply[j] != backup[k] {
      assert before[3 + j] == supply[j] && before[k] == backup[k];
    }
    forall j | 0 <= j < 3 && j != k ensures backup[j] != backup[k] {
      assert before[j] == backup[j] && before[k] == backup[k];
    }
    forall i, j | 0 <= i < j < |after| ensures after[i] != after[j] {
      var i', j' := if i == k then 3 else if i < 3 then i else i + 1, if j == k then 3 else if j < 3 then j else j + 1;
      assert after[i] == before[i'] && after[j] == before[j'];
    }
  }

  lemma SparesAfterLink(s: Pages, k: nat, t: Addr, i: Index, flags: bv8, prot: bv8)
    requires CanLink(s, k, t, prot) && !Present(Entry(s.mem, t, i))
    ensures var s' := LinkAt(s, k, t, i, flags, prot);
            && |s'.backup| == 3
            && Distinct(s'.backup + s'.supply)
            && (forall j :: 0 <= j < 3 ==> Spare(s', s'.backup[j]))
            && (forall j :: 0 <= j < |s'.supply| ==> Spare(s', s'.supply[j]))
  {
    var s' := LinkAt(s, k, t, i, flags, prot);
    GrowIsEdge(s, k, t, i, flags, prot);
    DistinctAfterLink(s.backup, s.supply, k);
    forall j | 0 <= j < 3 ensures Spare(s', s'.backup[j]) {
      SpareSurvivesEdge(s, s', t, i, s.backup[k], if j == k then s.supply[0] else s.backup[j]);
    }
    forall j | 0 <= j < |s'.supply| ensures Spare(s', s'.supply[j]) {
      SpareSurvivesEdge(s, s', t, i, s.backup[k], s.supply[j + 1]);
    }
  }

  lemma GrowKeepsReady(s: Pages, k: nat, t: Addr, i: Index, flags: bv8, prot: bv8)
    requires CanLink(s, k, t, prot)
    ensures var (s', c) := Grow(s, k, t, i, flags, prot);
            && Ready(s') && s'.root == s.root && s'.filter == s.filter && Extends(s.own, s'.own)
            && c in s'.own && Level(s'.own[c]) == Level(s.own[t]) - 1
            && Next(GraphIn(s'), t, i) == Some(c)
            && |s'.supply| >= |s.supply| - 1
  {
    hide GraphOf, TableEntry, FilterOk, ProtClear, Present, Slot, Tree, Clear, Edge, Distinct;
    GrowIsEdge(s, k, t, i, flags, prot);
    if Present(Entry(s.mem, t, i)) {
      ChildLevel(GraphIn(s), s.root, s.own, t, i);
    } else {
      var s' := LinkAt(s, k, t, i, flags, prot);
      assert Spare(s, s.backup[k]);
      LinkKeepsTree(GraphIn(s), GraphIn(s'), s.root, s.own, t, i, s.backup[k]);
      SparesAfterLink(s, k, t, i, flags, prot);
    }
  }

  lemma GrowKeepsFullWalk(s: Pages, k: nat, t: Addr, i: Index, flags: bv8, prot: bv8, q: seq<Index>)
    requires CanLink(s, k, t, prot) && |q| == 4
    ensures FullWalk(Grow(s, k, t, i, flags, prot).0, q) == FullWalk(s, q)
  {
    GrowIsEdge(s, k, t, i, flags, prot);
    if !Present(Entry(s.mem, t, i)) {
      assert Spare(s, s.backup[k]);
      LinkKeepsWalk(GraphIn(s), GraphIn(LinkAt(s, k, t, i, flags, prot)), s.root, s.own, t, i, s.backup[k], s.root, q);
    }
  }

  lemma GrowKeepsPrefix(s: Pages, k: nat, t: Addr, i: Index, flags: bv8, prot: bv8, q: seq<Index>)
    requires CanLink(s, k, t, prot) && FullWalk(s, q).Some?
    ensures FullWalk(Grow(s, k, t, i, flags, prot).0, q) == FullWalk(s, q)
  {
    GrowIsEdge(s, k, t, i, flags, prot);
    if !Present(Entry(s.mem, t, i)) {
      LinkKeepsPrefix(GraphIn(s), GraphIn(LinkAt(s, k, t, i, flags, prot)), t, i, s.backup[k], s.root, q);
    }
  }

  // ---- Building the three upper levels ----

  ghost predicate CanBuildFrom(s: Pages, path: seq<Index>, k: nat, t: Addr, prot: bv8) {
    && k <= 3 && |path| == 4 && Ready(s) && ProtClear(prot, s.filter)
    && t in s.own && Level(s.own[t]) == 4 - k && |s.supply| >= 3 - k
  }

  /** The state and the page table once the upper levels of `path` exist; `t` is
      the table that the first `k` indices lead to. */
  function Build(s: Pages, path: seq<Index>, k: nat, t: Addr, flags: bv8, prot: bv8): (Pages, Addr)
    requires CanBuildFrom(s, path, k, t, prot)
    decreases 3 - k
  {
    if k == 3 then (s, t)
    else
      GrowKeepsReady(s, k, t, path[k], flags, prot);
      var (s', c) := Grow(s, k, t, path[k], flags, prot);
      Build(s', path, k + 1, c, flags, prot)
  }

  lemma BuildStep(s: Pages, path: seq<Index>, k: nat, t: Addr, flags: bv8, prot: bv8)
    requires CanBuildFrom(s, path, k, t, prot) && k < 3
    ensures var (s', c) := Grow(s, k, t, path[k], flags, prot);
            && CanBuildFrom(s', path, k + 1, c, prot) && s'.filter == s.filter
            && Build(s, path, k, t, flags, prot) == Build(s', path, k + 1, c, flags, prot)
  {
    GrowKeepsReady(s, k, t, path[k], flags, prot);
  }

  lemma {:induction false} BuildReady(s: Pages, path: seq<Index>, k: nat, t: Addr, flags: bv8, prot: bv8)
    requires CanBuildFrom(s, path, k, t, prot) && FullWalk(s, path[..k]) == Some(t)
    ensures var (s', pt) := Build(s, path, k, t, flags, prot);
            && Ready(s') && s'.root == s.root && s'.filter == s.filter && Extends(s.own, s'.own)
            && pt in s'.own && Level(s'.own[pt]) == 1 && FullWalk(s', path[..3]) == Some(pt)
            && |s'.supply| >= |s.supply| - (3 - k)
    decreases 3 - k
  {
    hide GraphOf, Tree, TableAt, FilterOk, ProtClear, Spare, Distinct, LinkAt;
    if k < 3 {
      var (s', c) := Grow(s, k, t, path[k], flags, prot);
      GrowKeepsReady(s, k, t, path[k], flags, prot);
      GrowKeepsPrefix(s, k, t, path[k], flags, prot, path[..k]);
      DescendSnoc(GraphIn(s'), s.root, path[..k], path[k]);
      assert path[..k] + [path[k]] == path[..k + 1];
      BuildReady(s', path, k + 1, c, flags, prot);
    }
  }

  lemma {:induction false} BuildKeepsFullWalk(s: Pages, path: seq<Index>, k: nat, t: Addr, flags: bv8, prot: bv8,
                                              q: seq<Index>)
    requires CanBuildFrom(s, path, k, t, prot) && |q| == 4
    ensures FullWalk(Build(s, path, k, t, flags, prot).0, q) == FullWalk(s, q)
    decreases 3 - k
  {
    if k < 3 {
      var (s', c) := Grow(s, k, t, path[k], flags, prot);
      BuildStep(s, path, k, t, flags, prot);
      GrowKeepsFullWalk(s, k, t, path[k], flags, prot, q);
      BuildKeepsFullWalk(s', path, k + 1, c, flags, prot, q);
    }
  }

  // ---- One update ----

  /** What an update needs: the protection bits do not reach the address field
      and spares are at hand. */
  ghost predicate CanBuild(s: Pages, prot: bv8) {
    Ready(s) && ProtClear(prot, s.filter) && |s.supply| >= 3
  }

  function SetLeaf(s: Pages, pt: Addr, i: Index, p: Word, flags: bv8, prot: bv8): Pages {
    s.(mem := s.mem[Cell(pt, i) := LeafEntry(s.filter, flags, p, prot)])
  }

  lemma LeafTarget(f: Word, flags: bv8, p: Word, prot: bv8)
    requires FilterOk(f) && ProtClear(prot, f)
    ensures Present(LeafEntry(f, flags, p, prot)) && Target(f, LeafEntry(f, flags, p, prot)) == At(Mask(p, f))
  {
    LeafAddress(f, flags, p, prot);
  }

  lemma LeafIsEdge(s: Pages, pt: Addr, i: Index, p: Word, flags: bv8, prot: bv8)
    requires Ready(s) && ProtClear(prot, s.filter) && pt in s.own
    ensures Edge(GraphIn(s), GraphIn(SetLeaf(s, pt, i, p, flags, prot)), pt, i, At(Mask(p, s.filter)))
  {
    hide LeafEntry, GraphOf, Tree, Slot, Present, Mask, Aligned, FilterOk, ProtClear, Target;
    LeafTarget(s.filter, flags, p, prot);
    assert TableAt(s.filter, pt);
    StoreIsEdge(s.mem, s.filter, pt, i, LeafEntry(s.filter, flags, p, prot));
  }

  /** An update along four table indices. */
  function MapAlong(s: Pages, path: seq<Index>, p: Word, flags: bv8, prot: bv8): Pages
    requires CanBuild(s, prot) && |path| == 4
  {
    var (b, pt) := Build(s, path, 0, s.root, flags, prot);
    SetLeaf(b, pt, path[3], p, flags, prot)
  }

  lemma MapAlongReady(s: Pages, path: seq<Index>, p: Word, flags: bv8, prot: bv8)
    requires CanBuild(s, prot) && |path| == 4
    ensures var s' := MapAlong(s, path, p, flags, prot);
            && Ready(s') && s'.root == s.root && s'.filter == s.filter
            && Extends(s.own, s'.own) && |s'.supply| >= |s.supply| - 3
  {
    hide GraphOf, LeafEntry, FilterOk, ProtClear, TableAt, Slot, Tree, Edge, Build;
    RootLevel(GraphIn(s), s.root, s.own);
    BuildReady(s, path, 0, s.root, flags, prot);
    var (b, pt) := Build(s, path, 0, s.root, flags, prot);
    var s' := MapAlong(s, path, p, flags, prot);
    LeafIsEdge(b, pt, path[3], p, flags, prot);
    LeafKeepsTree(GraphIn(b), GraphIn(s'), s.root, b.own, pt, path[3], At(Mask(p, s.filter)));
    forall x | Spare(b, x) ensures Spare(s', x) {
      SpareSurvivesEdge(b, s', pt, path[3], At(Mask(p, s.filter)), x);
    }
  }

  lemma MapChangesOneWalk(s: Pages, path: seq<Index>, p: Word, flags: bv8, prot: bv8, q: seq<Index>)
    requires CanBuild(s, prot) && |path| == |q| == 4
    ensures FullWalk(MapAlong(s, path, p, flags, prot), q) ==
            if q == path then Some(At(Mask(p, s.filter))) else FullWalk(s, q)
  {
    BuildReady(s, path, 0, s.root, flags, prot);
    BuildKeepsFullWalk(s, path, 0, s.root, flags, prot, q);
    var (b, pt) := Build(s, path, 0, s.root, flags, prot);
    LeafIsEdge(b, pt, path[3], p, flags, prot);
    LeafChangesOneWalk(GraphIn(b), GraphIn(MapAlong(s, path, p, flags, prot)), s.root, b.own, pt,
                       At(Mask(p, s.filter)), path, q);
  }

  /** ... and the top-level slot the update computes lies in the root table. */
  ghost predicate CanMap(s: Pages, v: Word, prot: bv8) {
    CanBuild(s, prot) && I4(v) < 64
  }

  /** `page_map_PML4(v, p, flags, prot)`. */
  function MapPage(s: Pages, v: Word, p: Word, flags: bv8, prot: bv8): Pages
    requires CanMap(s, v, prot)
  {
    MapAlong(s, Path(Alias(v)), p, flags, prot)
  }

  lemma MapKeepsReady(s: Pages, v: Word, p: Word, flags: bv8, prot: bv8)
    requires CanMap(s, v, prot)
    ensures var s' := MapPage(s, v, p, flags, prot);
            && Ready(s') && s'.root == s.root && s'.filter == s.filter
            && Extends(s.own, s'.own) && |s'.supply| >= |s.supply| - 3
  {
    MapAlongReady(s, Path(Alias(v)), p, flags, prot);
  }

  /** The update refines one update of the flat map: it changes the frame of
      the aliased page and of no other. */
  lemma MapRefinesFlatUpdate(s: Pages, v: Word, p: Word, flags: bv8, prot: bv8, w: Word)
    requires CanMap(s, v, prot)
    ensures Frame(MapPage(s, v, p, flags, prot), w) ==
            if PageOf(w) == PageOf(Alias(v)) then Some(At(Mask(p, s.filter))) else Frame(s, w)
  {
    MapChangesOneWalk(s, Path(Alias(v)), p, flags, prot, Path(w));
    SamePath(w, Alias(v));
  }

  /** A page maps to itself exactly in top-level slot 0; elsewhere the walk for
      `v` sees the frame just mapped only if it saw that frame before. */
  lemma MapThenWalk(s: Pages, v: Word, p: Word, flags: bv8, prot: bv8)
    requires CanMap(s, v, prot)
    ensures Frame(MapPage(s, v, p, flags, prot), v) == Some(At(Mask(p, s.filter))) <==>
            I4(v) == 0 || Frame(s, v) == Some(At(Mask(p, s.filter)))
  {
    MapRefinesFlatUpdate(s, v, p, flags, prot, v);
    AliasSame(v);
  }

  /** Outside slot 0 an unmapped page stays unmapped when it is mapped: another
      page gets the frame. */
  lemma UpperPageStaysUnmapped(s: Pages, v: Word, p: Word, flags: bv8, prot: bv8)
    requires CanMap(s, v, prot) && I4(v) != 0 && Frame(s, v) == None
    ensures Frame(MapPage(s, v, p, flags, prot), v) == None
    ensures Frame(MapPage(s, v, p, flags, prot), Alias(v)) == Some(At(Mask(p, s.filter)))
    ensures PageOf(Alias(v)) != PageOf(v)
  {
    MapRefinesFlatUpdate(s, v, p, flags, prot, v);
    MapRefinesFlatUpdate(s, v, p, flags, prot, Alias(v));
    AliasSame(v);
  }

  /** An address in top-level slot 1 gets its frame in slot 8 and keeps whatever
      it had. */
  lemma SlotOneIsMappedInSlotEight(s: Pages, p: Word, flags: bv8, prot: bv8)
    requires CanBuild(s, prot)
    ensures CanMap(s, 0x80_0000_0000, prot)
    ensures Frame(MapPage(s, 0x80_0000_0000, p, flags, prot), 0x400_0000_0000) == Some(At(Mask(p, s.filter)))
    ensures Frame(MapPage(s, 0x80_0000_0000, p, flags, prot), 0x80_0000_0000) == Frame(s, 0x80_0000_0000)
  {
    hide MapPage, Frame, Ready, ProtClear, Path;
    SlotOneAlias();
    MapRefinesFlatUpdate(s, 0x80_0000_0000, p, flags, prot, 0x400_0000_0000);
    MapRefinesFlatUpdate(s, 0x80_0000_0000, p, flags, prot, 0x80_0000_0000);
  }

  // ---- Nested allocations ----

  function LevelsMissing(r: Traced): nat {
    match r case Mapped(_) => 0 case Missing(c) => c
  }

  lemma EmptyTableLacksAll(g: Graph, t: Addr, q: seq<Index>)
    requires Clear(g, t)
    ensures LevelsMissing(TraceFrom(g, t, q)) == |q|
  {
    if q != [] { assert Next(g, t, q[0]) == None; }
  }

  lemma {:induction false} BuildTakesSpares(s: Pages, path: seq<Index>, k: nat, t: Addr, flags: bv8, prot: bv8)
    requires CanBuildFrom(s, path, k, t, prot)
    ensures |Build(s, path, k, t, flags, prot).0.supply| ==
            |s.supply| - LevelsMissing(TraceFrom(GraphIn(s), t, path[k..3]))
    decreases 3 - k
  {
    hide GraphOf, Tree, TableAt, FilterOk, ProtClear, Distinct;
    if k < 3 {
      var (s', c) := Grow(s, k, t, path[k], flags, prot);
      BuildStep(s, path, k, t, flags, prot);
      BuildTakesSpares(s', path, k + 1, c, flags, prot);
      GrowIsEdge(s, k, t, path[k], flags, prot);
      assert path[k..3][0] == path[k] && path[k..3][1..] == path[k + 1..3];
      if !Present(Entry(s.mem, t, path[k])) {
        assert Spare(s, c);
        assert c != t;
        SpareStaysClear(s, s', t, path[k], c);
        EmptyTableLacksAll(GraphIn(s'), c, path[k + 1..3]);
      }
    }
  }

  lemma SpareStaysClear(s: Pages, s': Pages, t: Addr, i: Index, c: Addr)
    requires Clear(GraphIn(s), c) && c != t && Edge(GraphIn(s), GraphIn(s'), t, i, c)
    ensures Clear(GraphIn(s'), c)
  {
    forall j ensures Next(GraphIn(s'), c, j) == None {
      assert Next(GraphIn(s'), c, j) == Next(GraphIn(s), c, j);
    }
  }

  /** An update calls `mem_alloc` for a new spare once for each upper level that
      its page lacks, and not at all if the page table is there. */
  lemma MapTakesSpares(s: Pages, v: Word, p: Word, flags: bv8, prot: bv8)
    requires CanMap(s, v, prot)
    ensures |MapPage(s, v, p, flags, prot).supply| ==
            |s.supply| - LevelsMissing(TraceFrom(GraphIn(s), s.root, Path(Alias(v))[..3]))
  {
    var path := Path(Alias(v));
    RootLevel(GraphIn(s), s.root, s.own);
    BuildTakesSpares(s, path, 0, s.root, flags, prot);
    assert path[..3] == path[0..3];
  }

  /** The page table that covers `v` exists. */
  ghost predicate HasTable(s: Pages, v: Word) {
    FullWalk(s, Path(v)[..3]).Some?
  }

  /** In slot 0 an update calls `mem_alloc` exactly if the page table is missing. */
  lemma NoNestedAllocationIff(s: Pages, v: Word, p: Word, flags: bv8, prot: bv8)
    requires CanMap(s, v, prot) && I4(v) == 0
    ensures |MapPage(s, v, p, flags, prot).supply| == |s.supply| <==> HasTable(s, v)
  {
    MapTakesSpares(s, v, p, flags, prot);
    AliasSame(v);
    SamePath(Alias(v), v);
    TraceFromAnswers(GraphIn(s), s.root, Path(v)[..3]);
  }

  lemma {:induction false} BuildKeepsPrefix(s: Pages, path: seq<Index>, k: nat, t: Addr, flags: bv8, prot: bv8,
                                            q: seq<Index>)
    requires CanBuildFrom(s, path, k, t, prot) && FullWalk(s, q).Some?
    ensures FullWalk(Build(s, path, k, t, flags, prot).0, q) == FullWalk(s, q)
    decreases 3 - k
  {
    hide GraphOf, Tree, TableAt, FilterOk, ProtClear, Spare, Distinct;
    if k < 3 {
      BuildStep(s, path, k, t, flags, prot);
      var (s', c) := Grow(s, k, t, path[k], flags, prot);
      GrowKeepsPrefix(s, k, t, path[k], flags, prot, q);
      BuildKeepsPrefix(s', path, k + 1, c, flags, prot, q);
    }
  }

  /** Updates never remove a page table from under a page. */
  lemma MapKeepsTables(s: Pages, v: Word, p: Word, flags: bv8, prot: bv8, w: Word)
    requires CanMap(s, v, prot) && HasTable(s, w)
    ensures HasTable(MapPage(s, v, p, flags, prot), w)
  {
    hide Path, Alias, GraphOf, ProtClear, Distinct;
    PathWords(Alias(v));
    PathWords(w);
    var path, q := Path(Alias(v)), Path(w)[..3];
    RootLevel(GraphIn(s), s.root, s.own);
    BuildReady(s, path, 0, s.root, flags, prot);
    BuildKeepsPrefix(s, path, 0, s.root, flags, prot, q);
    var (b, pt) := Build(s, path, 0, s.root, flags, prot);
    LeafIsEdge(b, pt, path[3], p, flags, prot);
    RootLevel(GraphIn(b), b.root, b.own);
    LeafKeepsUpperWalk(GraphIn(b), GraphIn(MapPage(s, v, p, flags, prot)), b.root, b.own, pt, path[3],
                       At(Mask(p, s.filter)), b.root, q);
  }

  /** A page with a frame has a page table. */
  lemma FrameNeedsTable(s: Pages, v: Word)
    requires Frame(s, v).Some?
    ensures HasTable(s, v)
  {
    hide Path;
    PathWords(v);
    PathSplit(GraphIn(s), s.root, Path(v));
  }

  /** An update that takes no spare builds nothing. */
  lemma {:induction false} NothingBuilt(s: Pages, path: seq<Index>, k: nat, t: Addr, flags: bv8, prot: bv8)
    requires CanBuildFrom(s, path, k, t, prot)
    requires LevelsMissing(TraceFrom(GraphIn(s), t, path[k..3])) == 0
    ensures Build(s, path, k, t, flags, prot).0 == s
    decreases 3 - k
  {
    hide GraphOf, Tree, TableAt, FilterOk, ProtClear, Distinct, Spare;
    if k < 3 {
      BuildStep(s, path, k, t, flags, prot);
      GrowIsEdge(s, k, t, path[k], flags, prot);
      assert path[k..3][0] == path[k] && path[k..3][1..] == path[k + 1..3];
      NothingBuilt(s, path, k + 1, Grow(s, k, t, path[k], flags, prot).1, flags, prot);
    }
  }

  /** ... so no page gets a page table by it. */
  lemma MapAddsNoTable(s: Pages, v: Word, p: Word, flags: bv8, prot: bv8, w: Word)
    requires CanMap(s, v, prot) && |MapPage(s, v, p, flags, prot).supply| == |s.supply|
    requires HasTable(MapPage(s, v, p, flags, prot), w)
    ensures HasTable(s, w)
  {
    hide Path, Alias, GraphOf, ProtClear, Distinct;
    PathWords(Alias(v));
    PathWords(w);
    var path, q := Path(Alias(v)), Path(w)[..3];
    RootLevel(GraphIn(s), s.root, s.own);
    MapTakesSpares(s, v, p, flags, prot);
    assert path[..3] == path[0..3];
    NothingBuilt(s, path, 0, s.root, flags, prot);
    BuildReady(s, path, 0, s.root, flags, prot);
    var pt := Build(s, path, 0, s.root, flags, prot).1;
    LeafIsEdge(s, pt, path[3], p, flags, prot);
    LeafKeepsUpperWalk(GraphIn(s), GraphIn(MapPage(s, v, p, flags, prot)), s.root, s.own, pt, path[3],
                       At(Mask(p, s.filter)), s.root, q);
  }

  // ---- Whole runs ----

  datatype Call = Call(v: Word, p: Word, flags: bv8, prot: bv8)

  /** The flat map's answer for `w` after a run of updates. */
  function FlatRun(f: Word, calls: seq<Call>, w: Word, before: Option<Addr>): Option<Addr> {
    if calls == [] then before
    else
      var c := calls[|calls| - 1];
      if PageOf(w) == PageOf(Alias(c.v)) then Some(At(Mask(c.p, f))) else FlatRun(f, calls[..|calls| - 1], w, before)
  }

  ghost predicate CanRun(s: Pages, calls: seq<Call>) {
    && Ready(s)
    && |s.supply| >= 3 * |calls|
    && (forall k :: 0 <= k < |calls| ==> I4(calls[k].v) < 64 && ProtClear(calls[k].prot, s.filter))
  }

  function Run(s: Pages, calls: seq<Call>): (s': Pages)
    requires CanRun(s, calls)
    ensures Ready(s') && s'.root == s.root && s'.filter == s.filter && Extends(s.own, s'.own)
    ensures |s'.supply| >= |s.supply| - 3 * |calls|
    decreases |calls|
  {
    if calls == [] then s
    else
      var c := calls[|calls| - 1];
      var t := Run(s, calls[..|calls| - 1]);
      MapKeepsReady(t, c.v, c.p, c.flags, c.prot);
      MapPage(t, c.v, c.p, c.flags, c.prot)
  }

  /** Over every run the radix tree answers like the flat map. */
  lemma {:induction false} RunRefinesFlatMap(s: Pages, calls: seq<Call>, w: Word)
    requires CanRun(s, calls)
    ensures Frame(Run(s, calls), w) == FlatRun(s.filter, calls, w, Frame(s, w))
    decreases |calls|
  {
    if calls != [] {
      var c := calls[|calls| - 1];
      var t := Run(s, calls[..|calls| - 1]);
      RunRefinesFlatMap(s, calls[..|calls| - 1], w);
      MapRefinesFlatUpdate(t, c.v, c.p, c.flags, c.prot, w);
    }
  }

  // ---- The lookup ----

  /** `page_trace_PML4(v)`: the frame, or the level at which the walk ends. */
  ghost function Trace(s: Pages, v: Word): Traced {
    TraceFrom(GraphIn(s), s.root, Path(Mask(v, s.filter)))
  }

  /** The lookup answers with the flat map's frame, and otherwise names the
      level below which the walk finds nothing. */
  lemma TraceAnswers(s: Pages, v: Word)
    requires FilterOk(s.filter)
    ensures Answers(GraphIn(s), s.root, Path(v), Trace(s, v))
    ensures Frame(s, v) == match Trace(s, v) case Mapped(x) => Some(x) case Missing(c) => None
  {
    FilterKeepsPath(s.filter, v);
    TraceFromAnswers(GraphIn(s), s.root, Path(v));
  }
}
