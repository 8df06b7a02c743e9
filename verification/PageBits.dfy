/** Which words an update stores, bit for bit: the entries it links, the leaf, and
    what a page check's flags make of a page
    (kernel/src/code/mem/page_map.c lines 44-123, alloc.c line 38). */
module PageBits {
  import opened PageEntry
  import opened Options
  import opened Radix
  import opened PageTables
  import opened PageMapping

  /** The word of entry `q[k]` of the table that the first `k` indices lead to. */
  ghost function WordAt(s: Pages, q: seq<Index>, k: nat): Word
    requires k < |q|
  {
    match FullWalk(s, q[..k]) case None => 0 case Some(t) => Entry(s.mem, t, q[k])
  }

  // ---- One linking step ----

  lemma GrowStores(s: Pages, k: nat, t: Addr, i: Index, flags: bv8, prot: bv8)
    requires k < |s.backup| && t in s.own && |s.supply| >= 1
    ensures var (s', c) := Grow(s, k, t, i, flags, prot);
            && Entry(s'.mem, t, i) ==
               (if Present(Entry(s.mem, t, i)) then Entry(s.mem, t, i)
                else TableEntry(s.filter, flags, s.backup[k].word, prot))
            && (forall a :: a != Cell(t, i) ==> Load(s'.mem, a) == Load(s.mem, a))
            && (forall a :: Present(Load(s.mem, a)) ==> Load(s'.mem, a) == Load(s.mem, a))
            && |s'.backup| == |s.backup| && (forall j :: 0 <= j < |s.backup| && j != k ==> s'.backup[j] == s.backup[j])
  {
    hide TableEntry, Present, Cell;
  }

  /** A link at a free entry leads to an empty table, so it completes no longer
      path. */
  lemma GrowEndsThere(s: Pages, k: nat, t: Addr, flags: bv8, prot: bv8, r: seq<Index>, j: nat)
    requires CanLink(s, k, t, prot) && k < j < |r| && FullWalk(s, r[..k]) == Some(t)
    ensures FullWalk(Grow(s, k, t, r[k], flags, prot).0, r[..j + 1]).Some? ==> FullWalk(s, r[..j + 1]).Some?
  {
    hide GraphOf, Tree, TableAt, FilterOk, ProtClear, Distinct, Edge;
    var (s', c) := Grow(s, k, t, r[k], flags, prot);
    GrowIsEdge(s, k, t, r[k], flags, prot);
    if !Present(Entry(s.mem, t, r[k])) {
      assert Spare(s, s.backup[k]);
      SpareStaysClear(s, s', t, r[k], c);
      GrowKeepsPrefix(s, k, t, r[k], flags, prot, r[..k]);
      DescendSnoc(GraphIn(s'), s.root, r[..k], r[k]);
      assert r[..k] + [r[k]] == r[..k + 1];
      DescendAppend(GraphIn(s'), s.root, r[..k + 1], r[k + 1..j + 1]);
      assert r[..k + 1] + r[k + 1..j + 1] == r[..j + 1];
      assert Next(GraphIn(s'), c, r[k + 1..j + 1][0]) == None;
    }
  }

  // ---- The three upper levels ----

  lemma {:induction false} BuildKeepsWords(s: Pages, path: seq<Index>, k: nat, t: Addr, flags: bv8, prot: bv8, a: Addr)
    requires CanBuildFrom(s, path, k, t, prot) && Present(Load(s.mem, a))
    ensures Load(Build(s, path, k, t, flags, prot).0.mem, a) == Load(s.mem, a)
    decreases 3 - k
  {
    hide Ready, ProtClear, Present, Grow;
    if k < 3 {
      BuildStep(s, path, k, t, flags, prot);
      TableCount(s);
      GrowStores(s, k, t, path[k], flags, prot);
      var (s', c) := Grow(s, k, t, path[k], flags, prot);
      BuildKeepsWords(s', path, k + 1, c, flags, prot, a);
    }
  }

  lemma TableCount(s: Pages)
    requires Ready(s)
    ensures |s.backup| == 3
  {
  }

  /** After the linking steps from level `k` on, entry `j` of the path is as it was
      or refers to spare `j`. */
  lemma {:induction false} BuildStores(s: Pages, path: seq<Index>, k: nat, t: Addr, flags: bv8, prot: bv8, j: nat)
    requires CanBuildFrom(s, path, k, t, prot) && FullWalk(s, path[..k]) == Some(t) && k <= j < 3
    ensures |s.backup| == 3
    ensures WordAt(Build(s, path, k, t, flags, prot).0, path, j) ==
            if FullWalk(s, path[..j + 1]).Some? then WordAt(s, path, j)
            else TableEntry(s.filter, flags, s.backup[j].word, prot)
    decreases 3 - k
  {
    hide Ready, ProtClear, Present, Grow, GraphOf, TableEntry;
    TableCount(s);
    BuildStep(s, path, k, t, flags, prot);
    GrowStores(s, k, t, path[k], flags, prot);
    var (s', c) := Grow(s, k, t, path[k], flags, prot);
    OneStep(s, path, k, t, flags, prot);
    if j == k {
      BuildKeepsPrefix(s', path, k + 1, c, flags, prot, path[..k]);
      BuildKeepsWords(s', path, k + 1, c, flags, prot, Cell(t, path[k]));
    } else {
      BuildStores(s', path, k + 1, c, flags, prot, j);
      GrowEndsThere(s, k, t, flags, prot, path, j);
      if FullWalk(s, path[..j + 1]).Some? { StepIdle(s, path, k, t, flags, prot, j); }
    }
  }

  /** What one step of the path leaves: the entry is present and leads on. */
  lemma OneStep(s: Pages, path: seq<Index>, k: nat, t: Addr, flags: bv8, prot: bv8)
    requires CanBuildFrom(s, path, k, t, prot) && FullWalk(s, path[..k]) == Some(t) && k < 3
    ensures var (s', c) := Grow(s, k, t, path[k], flags, prot);
            && s'.filter == s.filter && s'.root == s.root
            && FullWalk(s', path[..k]) == Some(t) && FullWalk(s', path[..k + 1]) == Some(c)
            && Present(Load(s'.mem, Cell(t, path[k])))
            && (Present(Entry(s.mem, t, path[k])) <==> FullWalk(s, path[..k + 1]).Some?)
  {
    hide Tree, TableAt, FilterOk, ProtClear, Distinct, Edge, Present, GraphOf, Spare, Cell;
    var (s', c) := Grow(s, k, t, path[k], flags, prot);
    GrowKeepsReady(s, k, t, path[k], flags, prot);
    GrowKeepsPrefix(s, k, t, path[k], flags, prot, path[..k]);
    DescendSnoc(GraphIn(s), s.root, path[..k], path[k]);
    DescendSnoc(GraphIn(s'), s.root, path[..k], path[k]);
    assert path[..k] + [path[k]] == path[..k + 1];
    assert TableAt(s.filter, t);
    TablesAligned(s.filter, t);
    NextOf(s.mem, s.filter, t, path[k]);
    NextOf(s'.mem, s.filter, t, path[k]);
  }

  /** A step on a path that goes on changes nothing. */
  lemma StepIdle(s: Pages, path: seq<Index>, k: nat, t: Addr, flags: bv8, prot: bv8, j: nat)
    requires CanBuildFrom(s, path, k, t, prot) && FullWalk(s, path[..k]) == Some(t) && k < j < 3
    requires FullWalk(s, path[..j + 1]).Some?
    ensures Grow(s, k, t, path[k], flags, prot).0 == s
  {
    hide Ready, GraphOf, Present, TableEntry;
    OneStep(s, path, k, t, flags, prot);
    DescendAppend(GraphIn(s), s.root, path[..k + 1], path[k + 1..j + 1]);
    assert path[..k + 1] + path[k + 1..j + 1] == path[..j + 1];
    TableCount(s);
  }

  /** ... and no word is stored but at those entries. */
  lemma {:induction false} BuildTouches(s: Pages, path: seq<Index>, k: nat, t: Addr, flags: bv8, prot: bv8, a: Addr)
    requires CanBuildFrom(s, path, k, t, prot) && FullWalk(s, path[..k]) == Some(t)
    requires forall j :: k <= j < 3 ==>
               FullWalk(Build(s, path, k, t, flags, prot).0, path[..j]).Some? &&
               a != Cell(FullWalk(Build(s, path, k, t, flags, prot).0, path[..j]).value, path[j])
    ensures Load(Build(s, path, k, t, flags, prot).0.mem, a) == Load(s.mem, a)
    decreases 3 - k
  {
    hide Ready, ProtClear, Present, Grow, GraphOf, Cell;
    if k < 3 {
      TableCount(s);
      BuildStep(s, path, k, t, flags, prot);
      GrowStores(s, k, t, path[k], flags, prot);
      OneStep(s, path, k, t, flags, prot);
      var (s', c) := Grow(s, k, t, path[k], flags, prot);
      BuildKeepsPrefix(s', path, k + 1, c, flags, prot, path[..k]);
      BuildTouches(s', path, k + 1, c, flags, prot, a);
    }
  }

  // ---- One update ----

  /** The walks and words of the upper levels are the same before and after the
      leaf is stored. */
  lemma LeafKeepsUpper(b: Pages, pt: Addr, q: seq<Index>, p: Word, flags: bv8, prot: bv8, j: nat)
    requires Ready(b) && ProtClear(prot, b.filter) && |q| == 4 && j <= 3 && FullWalk(b, q[..3]) == Some(pt)
    requires pt in b.own && Level(b.own[pt]) == 1
    ensures var s' := SetLeaf(b, pt, q[3], p, flags, prot);
            && FullWalk(s', q[..j]) == FullWalk(b, q[..j])
            && (j < 3 ==> WordAt(s', q, j) == WordAt(b, q, j))
  {
    hide LeafEntry, Tree, GraphOf, Aligned, FilterOk, ProtClear, Cell, Spare, Distinct, Edge;
    var s' := SetLeaf(b, pt, q[3], p, flags, prot);
    RootLevel(GraphIn(b), b.root, b.own);
    LeafIsEdge(b, pt, q[3], p, flags, prot);
    LeafKeepsUpperWalk(GraphIn(b), GraphIn(s'), b.root, b.own, pt, q[3], At(Mask(p, b.filter)), b.root, q[..j]);
    DescendAppend(GraphIn(b), b.root, q[..j], q[j..3]);
    assert q[..j] + q[j..3] == q[..3];
    DescendInside(GraphIn(b), b.root, b.own, b.root, q[..j]);
    var t := FullWalk(b, q[..j]).value;
    assert TableAt(b.filter, t) && TableAt(b.filter, pt);
    TablesAligned(b.filter, t);
    TablesAligned(b.filter, pt);
    if j < 3 { StoreFrame(b.mem, pt, q[3], LeafEntry(b.filter, flags, p, prot), t, q[j]); }
  }

  lemma TreeOf(s: Pages)
    requires Ready(s)
    ensures Tree(GraphIn(s), s.root, s.own)
  {
  }

  /** The upper levels of a path built, and the leaf stored. */
  lemma BuiltAlong(s: Pages, q: seq<Index>, p: Word, flags: bv8, prot: bv8) returns (b: Pages, pt: Addr)
    requires CanBuild(s, prot) && |q| == 4
    ensures CanBuildFrom(s, q, 0, s.root, prot) && FullWalk(s, q[..0]) == Some(s.root)
    ensures (b, pt) == Build(s, q, 0, s.root, flags, prot)
    ensures MapAlong(s, q, p, flags, prot) == SetLeaf(b, pt, q[3], p, flags, prot)
    ensures Ready(b) && b.root == s.root && b.filter == s.filter && pt in b.own && Level(b.own[pt]) == 1
    ensures FullWalk(b, q[..3]) == Some(pt)
  {
    hide GraphOf, TableAt, FilterOk, ProtClear, Spare, Distinct, LeafEntry;
    TreeOf(s);
    RootLevel(GraphIn(s), s.root, s.own);
    BuildReady(s, q, 0, s.root, flags, prot);
    b, pt := Build(s, q, 0, s.root, flags, prot).0, Build(s, q, 0, s.root, flags, prot).1;
  }

  lemma AlongStoresUpper(s: Pages, q: seq<Index>, p: Word, flags: bv8, prot: bv8, j: nat)
    requires CanBuild(s, prot) && |q| == 4 && j < 3
    ensures |s.backup| == 3
    ensures var s' := MapAlong(s, q, p, flags, prot);
            && FullWalk(s', q[..j]).Some?
            && WordAt(s', q, j) ==
               if FullWalk(s, q[..j + 1]).Some? then WordAt(s, q, j)
               else TableEntry(s.filter, flags, s.backup[j].word, prot)
  {
    hide Ready, ProtClear, GraphOf, LeafEntry, TableEntry, Cell, WordAt, Build, SetLeaf, MapAlong;
    TableCount(s);
    var b, pt := BuiltAlong(s, q, p, flags, prot);
    LeafKeepsUpper(b, pt, q, p, flags, prot, j);
    BuildStores(s, q, 0, s.root, flags, prot, j);
    DescendAppend(GraphIn(b), b.root, q[..j], q[j..3]);
    assert q[..j] + q[j..3] == q[..3];
  }

  lemma AlongStoresLeaf(s: Pages, q: seq<Index>, p: Word, flags: bv8, prot: bv8)
    requires CanBuild(s, prot) && |q| == 4
    ensures var s' := MapAlong(s, q, p, flags, prot);
            && FullWalk(s', q[..3]).Some? && WordAt(s', q, 3) == LeafEntry(s.filter, flags, p, prot)
  {
    hide Ready, ProtClear, GraphOf, LeafEntry, Cell, Build, MapAlong;
    var b, pt := BuiltAlong(s, q, p, flags, prot);
    LeafKeepsUpper(b, pt, q, p, flags, prot, 3);
  }

  lemma AlongTouches(s: Pages, q: seq<Index>, p: Word, flags: bv8, prot: bv8, a: Addr)
    requires CanBuild(s, prot) && |q| == 4
    requires var s' := MapAlong(s, q, p, flags, prot);
             forall j :: 0 <= j <= 3 ==> FullWalk(s', q[..j]).Some? && a != Cell(FullWalk(s', q[..j]).value, q[j])
    ensures Load(MapAlong(s, q, p, flags, prot).mem, a) == Load(s.mem, a)
  {
    hide Ready, ProtClear, GraphOf, LeafEntry, Cell, Build, MapAlong, WordAt, FullWalk;
    var b, pt := BuiltAlong(s, q, p, flags, prot);
    var s' := MapAlong(s, q, p, flags, prot);
    forall j | 0 <= j < 4 ensures FullWalk(s', q[..j]) == FullWalk(b, q[..j]) {
      LeafKeepsUpper(b, pt, q, p, flags, prot, j);
    }
    assert a != Cell(FullWalk(s', q[..3]).value, q[3]);
    assert Load(s'.mem, a) == Load(b.mem, a);
    BuildTouches(s, q, 0, s.root, flags, prot, a);
  }

  /** Every word an update stores: the leaf entry of the aliased page; for each
      upper level that it lacked the entry that links the spare of that level; and
      nothing else. */
  lemma MapStores(s: Pages, v: Word, p: Word, flags: bv8, prot: bv8)
    requires CanMap(s, v, prot)
    ensures var s', q := MapPage(s, v, p, flags, prot), Path(Alias(v));
            && |q| == 4 && |s.backup| == 3
            && (forall j :: 0 <= j <= 3 ==> FullWalk(s', q[..j]).Some?)
            && WordAt(s', q, 3) == LeafEntry(s.filter, flags, p, prot)
            && (forall j :: 0 <= j < 3 ==>
                  WordAt(s', q, j) ==
                  if FullWalk(s, q[..j + 1]).Some? then WordAt(s, q, j)
                  else TableEntry(s.filter, flags, s.backup[j].word, prot))
            && (forall a :: (forall j :: 0 <= j <= 3 ==> a != Cell(FullWalk(s', q[..j]).value, q[j])) ==>
                  Load(s'.mem, a) == Load(s.mem, a))
  {
    hide Ready, ProtClear, Path, Alias, LeafEntry, TableEntry, Cell, FullWalk, WordAt, MapAlong;
    TableCount(s);
    PathWords(Alias(v));
    var s', q := MapPage(s, v, p, flags, prot), Path(Alias(v));
    forall j | 0 <= j < 3
      ensures FullWalk(s', q[..j]).Some?
      ensures WordAt(s', q, j) ==
              if FullWalk(s, q[..j + 1]).Some? then WordAt(s, q, j)
              else TableEntry(s.filter, flags, s.backup[j].word, prot)
    {
      AlongStoresUpper(s, q, p, flags, prot, j);
    }
    AlongStoresLeaf(s, q, p, flags, prot);
    forall a | forall j :: 0 <= j <= 3 ==> a != Cell(FullWalk(s', q[..j]).value, q[j])
      ensures Load(s'.mem, a) == Load(s.mem, a)
    {
      AlongTouches(s, q, p, flags, prot, a);
    }
  }

  // ---- Leaves of other pages ----

  /** Every page mapped in `s` is mapped in `s'`, by the same entry. */
  ghost predicate LeavesStay(s: Pages, s': Pages) {
    forall w: Word :: Frame(s, w).Some? ==> Frame(s', w).Some? && WordAt(s', Path(w), 3) == WordAt(s, Path(w), 3)
  }

  lemma LeavesStayOn(a: Pages, b: Pages, c: Pages)
    requires LeavesStay(a, b) && LeavesStay(b, c)
    ensures LeavesStay(a, c)
  {
    hide Path, WordAt, Frame;
  }

  lemma FullLeaf(s: Pages, q: seq<Index>)
    requires |q| == 4 && FullWalk(s, q).Some?
    ensures FullWalk(s, q[..3]).Some? && Present(WordAt(s, q, 3)) && Aligned(FullWalk(s, q[..3]).value.word)
  {
    hide GraphOf, Cell, Present, Aligned;
    PathSplit(GraphIn(s), s.root, q);
    NextOf(s.mem, s.filter, FullWalk(s, q[..3]).value, q[3]);
  }

  lemma AlongKeepsLeaf(s: Pages, q: seq<Index>, p: Word, flags: bv8, prot: bv8, r: seq<Index>)
    requires CanBuild(s, prot) && |q| == |r| == 4 && q != r && FullWalk(s, r).Some?
    ensures WordAt(MapAlong(s, q, p, flags, prot), r, 3) == WordAt(s, r, 3)
  {
    hide Ready, ProtClear, GraphOf, LeafEntry, Cell, Build, MapAlong, Present, Aligned;
    var b, pt := BuiltAlong(s, q, p, flags, prot);
    FullLeaf(s, r);
    var t := FullWalk(s, r[..3]).value;
    BuildKeepsPrefix(s, q, 0, s.root, flags, prot, r[..3]);
    BuildKeepsWords(s, q, 0, s.root, flags, prot, Cell(t, r[3]));
    LeafElsewhere(b, pt, q, p, flags, prot, r);
  }

  lemma LeafElsewhere(b: Pages, pt: Addr, q: seq<Index>, p: Word, flags: bv8, prot: bv8, r: seq<Index>)
    requires Ready(b) && ProtClear(prot, b.filter) && pt in b.own && Level(b.own[pt]) == 1
    requires |q| == |r| == 4 && q != r && FullWalk(b, q[..3]) == Some(pt) && FullWalk(b, r[..3]).Some?
    ensures WordAt(SetLeaf(b, pt, q[3], p, flags, prot), r, 3) == WordAt(b, r, 3)
  {
    hide LeafEntry, Tree, GraphOf, Aligned, FilterOk, ProtClear, Cell, Spare, Distinct, Edge;
    var s', t := SetLeaf(b, pt, q[3], p, flags, prot), FullWalk(b, r[..3]).value;
    RootLevel(GraphIn(b), b.root, b.own);
    LeafIsEdge(b, pt, q[3], p, flags, prot);
    LeafKeepsUpperWalk(GraphIn(b), GraphIn(s'), b.root, b.own, pt, q[3], At(Mask(p, b.filter)), b.root, r[..3]);
    DescendInside(GraphIn(b), b.root, b.own, b.root, r[..3]);
    if t == pt {
      DescendInjective(GraphIn(b), b.root, b.own, b.root, r[..3], q[..3]);
      assert q == q[..3] + [q[3]] && r == r[..3] + [r[3]];
    }
    assert TableAt(b.filter, t) && TableAt(b.filter, pt);
    TablesAligned(b.filter, t);
    TablesAligned(b.filter, pt);
    StoreFrame(b.mem, pt, q[3], LeafEntry(b.filter, flags, p, prot), t, r[3]);
  }

  /** The update of an unmapped page of slot 0 leaves the entry of every mapped
      page as it was. */
  lemma MapKeepsLeaves(s: Pages, v: Word, p: Word, flags: bv8, prot: bv8)
    requires CanMap(s, v, prot) && I4(v) == 0 && Frame(s, v) == None
    ensures LeavesStay(s, MapPage(s, v, p, flags, prot))
  {
    hide Ready, ProtClear, GraphOf, Path, Alias, MapAlong, WordAt, FullWalk;
    AliasSame(v);
    SamePath(Alias(v), v);
    var s' := MapPage(s, v, p, flags, prot);
    PathWords(v);
    forall w: Word | Frame(s, w).Some?
      ensures Frame(s', w).Some? && |Path(w)| == 4 && WordAt(s', Path(w), 3) == WordAt(s, Path(w), 3)
    {
      PathWords(w);
      SamePath(w, v);
      MapRefinesFlatUpdate(s, v, p, flags, prot, w);
      AlongKeepsLeaf(s, Path(v), p, flags, prot, Path(w));
    }
  }

  /** ... and gives that page the leaf entry asked for. */
  lemma MapStoresLeaf(s: Pages, v: Word, p: Word, flags: bv8, prot: bv8)
    requires CanMap(s, v, prot) && I4(v) == 0
    ensures |Path(v)| == 4 && WordAt(MapPage(s, v, p, flags, prot), Path(v), 3) == LeafEntry(s.filter, flags, p, prot)
  {
    hide Ready, ProtClear, Path, Alias, LeafEntry, WordAt, MapAlong;
    AliasSame(v);
    SamePath(Alias(v), v);
    PathWords(v);
    AlongStoresLeaf(s, Path(v), p, flags, prot);
  }

  // ---- Writable pages ----

  /** Every entry on the walk of `q` has its writable bit. */
  ghost predicate WritableAlong(s: Pages, q: seq<Index>) {
    |q| == 4 && forall j :: 0 <= j < 4 ==> FullWalk(s, q[..j]).Some? && WordAt(s, q, j) & 2 == 2
  }

  lemma FlagBits(f: Word, p: Word)
    requires FilterOk(f)
    ensures LeafEntry(f, 1, p, 0) & 0xFFF == 3 && LeafEntry(f, 1, p, 0) & 2 == 2
    ensures TableEntry(f, 1, p, 0) & 0xFFF == 1 && TableEntry(f, 1, p, 0) & 2 == 0
  {
  }

  /** The flags of a page check make the leaf writable but no table it links: the
      page is writable at every level exactly if it had a page table, with every
      upper entry writable. */
  lemma CheckedWritableIff(s: Pages, v: Word, p: Word)
    requires CanMap(s, v, 0)
    ensures WritableAlong(MapPage(s, v, p, 1, 0), Path(Alias(v))) <==>
            HasTable(s, Alias(v)) &&
            forall j :: 0 <= j < 3 ==> WordAt(s, Path(Alias(v)), j) & 2 == 2
  {
    hide Ready, ProtClear, Path, Alias, LeafEntry, TableEntry, Cell, FullWalk, WordAt, MapPage, FilterOk;
    MapStores(s, v, p, 1, 0);
    var s', q := MapPage(s, v, p, 1, 0), Path(Alias(v));
    FilterOf(s);
    FlagBits(s.filter, p);
    FlagBits(s.filter, s.backup[2].word);
    if FullWalk(s, q[..3]).Some? {
      PrefixOf(s, q, 1);
      PrefixOf(s, q, 2);
    }
    if WritableAlong(s', q) {
      assert WordAt(s', q, 2) & 2 == 2;
    }
    assert q[..0 + 1] == q[..1] && q[..1 + 1] == q[..2] && q[..2 + 1] == q[..3];
  }

  lemma FilterOf(s: Pages)
    requires Ready(s)
    ensures FilterOk(s.filter)
  {
  }

  lemma PrefixOf(s: Pages, q: seq<Index>, j: nat)
    requires |q| == 4 && j <= 3 && FullWalk(s, q[..3]).Some?
    ensures FullWalk(s, q[..j]).Some?
  {
    DescendAppend(GraphIn(s), s.root, q[..j], q[j..3]);
    assert q[..j] + q[j..3] == q[..3];
  }
}
