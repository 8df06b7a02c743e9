/** `page_map_PML4` links its spare page table before it asks for the next one.
    The nested `mem_alloc` may itself map a page, with that spare still in place
    (kernel/src/code/mem/page_map.c lines 114-118). */
module SpareReuse {
  import opened PageEntry
  import opened Options
  import opened Radix
  import opened PageTables
  import opened PageMapping
  import opened PageSteps

  /** When line 116 calls `mem_alloc`: the spare page table is linked into entry
      `i` of `t`, and is still the spare. */
  function Linked(s: Pages, t: Addr, i: Index, flags: bv8, prot: bv8): Pages
    requires |s.backup| == 3
  {
    s.(mem := s.mem[Cell(t, i) := TableEntry(s.filter, flags, s.backup[2].word, prot)])
  }

  /** The walk of `q` ends at a page directory `t` that lacks its entry. */
  ghost predicate LacksEntry(s: Pages, q: seq<Index>, t: Addr, prot: bv8) {
    && CanBuild(s, prot) && |s.supply| >= 4 && |q| == 4
    && FullWalk(s, q[..2]) == Some(t) && !Present(Entry(s.mem, t, q[2]))
  }

  /** Equal memory, and equal spares from number `k` up to the page directories'. */
  predicate Agree(a: Pages, b: Pages, k: nat) {
    && a.root == b.root && a.filter == b.filter && a.mem == b.mem
    && |a.backup| == |b.backup| == 3
    && (forall j :: k <= j < 2 ==> a.backup[j] == b.backup[j])
  }

  lemma LinkStepAgrees(a: Pages, b: Pages, k: nat, slot: Addr, flags: bv8, prot: bv8)
    requires Agree(a, b, k) && k < 2 && |a.supply| >= 1 && |b.supply| >= 1
    ensures Agree(LinkStep(a, k, slot, flags, prot), LinkStep(b, k, slot, flags, prot), k + 1)
    ensures LinkStep(b, k, slot, flags, prot).backup[2] == b.backup[2]
  {
    hide TableEntry, Present;
  }

  /** The memory after the third step, from the directory `u` on. */
  function ThirdStep(m: Memory, f: Word, u: Addr, i: Index, spare: Addr, flags: bv8, prot: bv8): Memory {
    if Present(Load(m, Cell(u, i))) then m else m[Cell(u, i) := TableEntry(f, flags, spare.word, prot)]
  }

  /** The directory reached by two linking steps along `r`, and the state then. */
  function Directory(s: Pages, r: seq<Index>, flags: bv8, prot: bv8): (Pages, Addr)
    requires CanBuild(s, prot) && |r| == 4
  {
    BuildStarts(s, r, prot);
    BuildStep(s, r, 0, s.root, flags, prot);
    var (s1, pdpt) := Grow(s, 0, s.root, r[0], flags, prot);
    BuildStep(s1, r, 1, pdpt, flags, prot);
    Grow(s1, 1, pdpt, r[1], flags, prot)
  }

  /** An update along `r` with the spares of `l`, in the memory of the sound tree
      `s`. */
  lemma StepsFrom(s: Pages, l: Pages, r: seq<Index>, flags: bv8, prot: bv8)
    requires CanBuild(s, prot) && |r| == 4 && Agree(s, l, 0) && |l.supply| >= 3
    ensures var (b, u) := Directory(s, r, flags, prot);
            && var l1 := LinkStep(l, 0, Cell(l.root, r[0]), flags, prot);
            && var pdpt := Target(l.filter, Load(l1.mem, Cell(l.root, r[0])));
            && |l1.backup| == 3 && |l1.supply| >= 2
            && var l2 := LinkStep(l1, 1, Cell(pdpt, r[1]), flags, prot);
            && Target(l.filter, Load(l2.mem, Cell(pdpt, r[1]))) == u
            && |l2.backup| == 3 && |l2.supply| >= 1 && l2.filter == l.filter
            && LinkStep(l2, 2, Cell(u, r[2]), flags, prot).mem ==
               ThirdStep(b.mem, s.filter, u, r[2], l.backup[2], flags, prot)
            && LinkStep(l2, 2, Cell(u, r[2]), flags, prot).filter == l.filter
  {
    hide Cell, Target, ProtClear, Ready, Grow, LinkStep, TableEntry, Present;
    LinkStepSupply();
    BuildStarts(s, r, prot);
    ThreeBackups(s);
    BuildStep(s, r, 0, s.root, flags, prot);
    StepIsGrow(s, s, 0, s.root, r[0], flags, prot);
    LinkStepAgrees(s, l, 0, Cell(l.root, r[0]), flags, prot);
    var s1, l1 := LinkStep(s, 0, Cell(s.root, r[0]), flags, prot), LinkStep(l, 0, Cell(l.root, r[0]), flags, prot);
    var (b1, pdpt) := Grow(s, 0, s.root, r[0], flags, prot);
    ThreeBackups(b1);
    BuildStep(b1, r, 1, pdpt, flags, prot);
    StepIsGrow(s1, b1, 1, pdpt, r[1], flags, prot);
    LinkStepAgrees(s1, l1, 1, Cell(pdpt, r[1]), flags, prot);
    var l2 := LinkStep(l1, 1, Cell(pdpt, r[1]), flags, prot);
    var (b2, u) := Grow(b1, 1, pdpt, r[1], flags, prot);
    ThirdIs(l2, u, r[2], flags, prot);
  }

  lemma ThirdIs(l: Pages, u: Addr, i: Index, flags: bv8, prot: bv8)
    requires |l.backup| == 3 && |l.supply| >= 1
    ensures LinkStep(l, 2, Cell(u, i), flags, prot).mem ==
            ThirdStep(l.mem, l.filter, u, i, l.backup[2], flags, prot)
  {
  }

  /** The memory after the whole update, given that after three steps. */
  function LeafStep(m: Memory, f: Word, u: Addr, r: seq<Index>, p: Word, flags: bv8, prot: bv8): Memory
    requires |r| == 4
  {
    m[Cell(Target(f, Load(m, Cell(u, r[2]))), r[3]) := LeafEntry(f, flags, p, prot)]
  }

  lemma UpdateFrom(s: Pages, l: Pages, w: Word, p: Word, flags: bv8, prot: bv8)
    requires CanMap(s, w, prot) && Agree(s, l, 0) && |l.supply| >= 3
    ensures |Path(Alias(w))| == 4
    ensures var r := Path(Alias(w));
            var (b, u) := Directory(s, r, flags, prot);
            var m := ThirdStep(b.mem, s.filter, u, r[2], l.backup[2], flags, prot);
            Update(l, w, p, flags, prot).mem == LeafStep(m, s.filter, u, r, p, flags, prot)
  {
    hide Path, Alias, MapSlot4, I4, I3, I2, I1, Wide, Slot, Mask, LeafEntry, Ready, ProtClear, LinkStep, Directory;
    hide ThirdStep;
    LinkStepSupply();
    UpdateAddresses(s, w);
    LeafMask(s.filter, flags, p, prot);
    StepsFrom(s, l, Path(Alias(w)), flags, prot);
  }

  // ---- What the linking steps leave missing ----

  /** A link at a free entry leads to an empty table, so it completes no path of
      three steps. */
  lemma GrowAddsNoTable(s: Pages, k: nat, t: Addr, flags: bv8, prot: bv8, r: seq<Index>)
    requires CanLink(s, k, t, prot) && k < 2 && |r| == 4 && FullWalk(s, r[..k]) == Some(t)
    ensures FullWalk(Grow(s, k, t, r[k], flags, prot).0, r[..3]).Some? ==> FullWalk(s, r[..3]).Some?
  {
    hide GraphOf, Tree, TableAt, FilterOk, ProtClear, Distinct, Edge;
    var (s', c) := Grow(s, k, t, r[k], flags, prot);
    GrowIsEdge(s, k, t, r[k], flags, prot);
    if !Present(Entry(s.mem, t, r[k])) {
      assert Spare(s, s.backup[k]);
      SpareStaysClear(s, s', t, r[k], c);
      GrowKeepsPrefix(s, k, t, r[k], flags, prot, r[..k]);
      DescendSnoc(GraphIn(s'), s.root, r[..k], r[k]);
      assert r[..k] + [r[k]] == r[..k + 1];
      DescendAppend(GraphIn(s'), s.root, r[..k + 1], r[k + 1..3]);
      assert r[..k + 1] + r[k + 1..3] == r[..3];
      assert Next(GraphIn(s'), c, r[k + 1..3][0]) == None;
    }
  }

  /** Up to the directory the tree is sound, and the page table is there exactly
      if it was. */
  lemma DirectorySound(s: Pages, r: seq<Index>, flags: bv8, prot: bv8)
    requires CanBuild(s, prot) && |r| == 4
    ensures var (b, u) := Directory(s, r, flags, prot);
            && Ready(b) && b.root == s.root && b.filter == s.filter && Extends(s.own, b.own)
            && u in b.own && Level(b.own[u]) == 2 && FullWalk(b, r[..2]) == Some(u)
            && (Present(Entry(b.mem, u, r[2])) <==> FullWalk(s, r[..3]).Some?)
            && (FullWalk(b, r[..3]).Some? <==> FullWalk(s, r[..3]).Some?)
  {
    hide GraphOf, Tree, TableAt, FilterOk, ProtClear, Distinct, Edge, Grow, Spare, Present;
    RootLevel(GraphIn(s), s.root, s.own);
    BuildStarts(s, r, prot);
    BuildStep(s, r, 0, s.root, flags, prot);
    var (s1, pdpt) := Grow(s, 0, s.root, r[0], flags, prot);
    BuildStep(s1, r, 1, pdpt, flags, prot);
    var (b, u) := Grow(s1, 1, pdpt, r[1], flags, prot);
    OneLevel(s, 0, s.root, flags, prot, r);
    OneLevel(s1, 1, pdpt, flags, prot, r);
    DescendSnoc(GraphIn(b), s.root, r[..2], r[2]);
    assert r[..2] + [r[2]] == r[..3];
    assert Aligned(u.word) by { TablesAligned(b.filter, u); }
    NextOf(b.mem, b.filter, u, r[2]);
  }

  lemma OneLevel(s: Pages, k: nat, t: Addr, flags: bv8, prot: bv8, r: seq<Index>)
    requires CanLink(s, k, t, prot) && k < 2 && |r| == 4 && FullWalk(s, r[..k]) == Some(t)
    ensures var (s', c) := Grow(s, k, t, r[k], flags, prot);
            && Ready(s') && s'.root == s.root && s'.filter == s.filter && Extends(s.own, s'.own)
            && c in s'.own && Level(s'.own[c]) == Level(s.own[t]) - 1 && FullWalk(s', r[..k + 1]) == Some(c)
            && (FullWalk(s', r[..3]).Some? <==> FullWalk(s, r[..3]).Some?)
  {
    hide GraphOf, Tree, TableAt, FilterOk, ProtClear, Distinct, Edge, Grow, Spare;
    var (s', c) := Grow(s, k, t, r[k], flags, prot);
    GrowKeepsReady(s, k, t, r[k], flags, prot);
    GrowKeepsPrefix(s, k, t, r[k], flags, prot, r[..k]);
    DescendSnoc(GraphIn(s'), s.root, r[..k], r[k]);
    assert r[..k] + [r[k]] == r[..k + 1];
    GrowAddsNoTable(s, k, t, flags, prot, r);
    if FullWalk(s, r[..3]).Some? { GrowKeepsPrefix(s, k, t, r[k], flags, prot, r[..3]); }
  }

  lemma DirectoryKeeps(s: Pages, r: seq<Index>, flags: bv8, prot: bv8, q: seq<Index>, x: Addr)
    requires CanBuild(s, prot) && |r| == 4 && FullWalk(s, q).Some?
    requires x in s.own && Level(s.own[x]) == 1 && Clear(GraphIn(s), x)
    ensures var (b, u) := Directory(s, r, flags, prot);
            FullWalk(b, q) == FullWalk(s, q) && Clear(GraphIn(b), x)
  {
    hide GraphOf, Tree, TableAt, FilterOk, ProtClear, Distinct, Edge, Grow, Spare, Clear;
    RootLevel(GraphIn(s), s.root, s.own);
    BuildStarts(s, r, prot);
    BuildStep(s, r, 0, s.root, flags, prot);
    var (s1, pdpt) := Grow(s, 0, s.root, r[0], flags, prot);
    BuildStep(s1, r, 1, pdpt, flags, prot);
    GrowKeepsPrefix(s, 0, s.root, r[0], flags, prot, q);
    GrowKeepsClear(s, 0, s.root, r[0], flags, prot, x);
    GrowKeepsReady(s, 0, s.root, r[0], flags, prot);
    GrowKeepsPrefix(s1, 1, pdpt, r[1], flags, prot, q);
    GrowKeepsClear(s1, 1, pdpt, r[1], flags, prot, x);
  }

  lemma GrowKeepsClear(s: Pages, k: nat, t: Addr, i: Index, flags: bv8, prot: bv8, x: Addr)
    requires CanLink(s, k, t, prot) && x != t && Clear(GraphIn(s), x)
    ensures Clear(GraphIn(Grow(s, k, t, i, flags, prot).0), x)
  {
    hide GraphOf, Tree, TableAt, FilterOk, ProtClear, Distinct;
    GrowIsEdge(s, k, t, i, flags, prot);
    var s' := Grow(s, k, t, i, flags, prot).0;
    forall j ensures Next(GraphIn(s'), x, j) == None {
      assert Next(GraphIn(s'), x, j) == Next(GraphIn(s), x, j);
    }
  }

  // ---- The spare linked a second time ----

  /** The state that linking the spare and replacing it would leave: the same
      memory as `Linked`, and sound. */
  lemma LinkedIsSound(s: Pages, q: seq<Index>, t: Addr, flags: bv8, prot: bv8)
    requires LacksEntry(s, q, t, prot)
    ensures t in s.own && |s.backup| == 3
    ensures var a, x := LinkAt(s, 2, t, q[2], flags, prot), s.backup[2];
            && Ready(a) && |a.supply| >= 3 && Agree(a, Linked(s, t, q[2], flags, prot), 0)
            && TableAt(s.filter, x) && x in a.own && Level(a.own[x]) == 1 && Clear(GraphIn(a), x)
            && FullWalk(a, q[..3]) == Some(x)
  {
    hide GraphOf, Tree, TableAt, FilterOk, ProtClear, Distinct, Edge, TableEntry, Present;
    RootLevel(GraphIn(s), s.root, s.own);
    DescendInside(GraphIn(s), s.root, s.own, s.root, q[..2]);
    assert Spare(s, s.backup[2]);
    var a, c := Grow(s, 2, t, q[2], flags, prot).0, Grow(s, 2, t, q[2], flags, prot).1;
    GrowIsEdge(s, 2, t, q[2], flags, prot);
    GrowKeepsReady(s, 2, t, q[2], flags, prot);
    GrowKeepsPrefix(s, 2, t, q[2], flags, prot, q[..2]);
    SpareStaysClear(s, a, t, q[2], c);
    DescendSnoc(GraphIn(a), s.root, q[..2], q[2]);
    assert q[..2] + [q[2]] == q[..3];
  }

  /** A store of the linked spare `x` into a second free entry, and of a frame
      into `x`: `x` is reached by two walks. */
  lemma StoredTwice(b: Pages, u: Addr, i: Index, q: seq<Index>, r: seq<Index>, x: Addr, e: Word, j: Index, leaf: Word,
                    own: Owners)
    requires Ready(b) && u in b.own && Level(b.own[u]) == 2 && |r| == 4 && FullWalk(b, r[..2]) == Some(u)
    requires i == r[2] && !Present(Entry(b.mem, u, i)) && |q| == 3 && FullWalk(b, q) == Some(x)
    requires x in b.own && Level(b.own[x]) == 1 && Clear(GraphIn(b), x)
    requires Present(e) && Target(b.filter, e) == x && Present(leaf)
    ensures !Tree(GraphOf(b.mem[Cell(u, i) := e][Cell(x, j) := leaf], b.filter), b.root, own)
  {
    hide GraphOf, FilterOk, Distinct, Present, Target, Aligned, Spare;
    var m1 := b.mem[Cell(u, i) := e];
    var g, g1, g2 := GraphIn(b), GraphOf(m1, b.filter), GraphOf(m1[Cell(x, j) := leaf], b.filter);
    assert TableAt(b.filter, u) && TableAt(b.filter, x);
    TablesAligned(b.filter, u);
    TablesAligned(b.filter, x);
    NextOf(b.mem, b.filter, u, i);
    StoreIsEdge(b.mem, b.filter, u, i, e);
    StoreIsEdge(m1, b.filter, x, j, leaf);
    assert Next(g1, x, j) == Next(g, x, j) == None;
    TwoWalks(g, g1, g2, b.root, u, i, x, j, Target(b.filter, leaf), q, r[..2], own);
  }

  lemma TwoWalks(g: Graph, g1: Graph, g2: Graph, root: Addr, u: Addr, i: Index, x: Addr, j: Index, c: Addr,
                 q: seq<Index>, prefix: seq<Index>, own: Owners)
    requires Descend(g, root, prefix) == Some(u) && Next(g, u, i) == None && Edge(g, g1, u, i, x)
    requires Descend(g, root, q) == Some(x) && Next(g1, x, j) == None && Edge(g1, g2, x, j, c)
    requires |q| == 3 && |prefix| == 2
    ensures !Tree(g2, root, own)
  {
    hide Tree, Edge;
    DescendSnoc(g, root, prefix, i);
    LinkKeepsPrefix(g, g1, u, i, x, root, q);
    LinkKeepsPrefix(g1, g2, x, j, c, root, q);
    WalkThroughEdge(g, g1, root, prefix, u, i, x, []);
    assert prefix + [i] + [] == prefix + [i];
    LinkKeepsPrefix(g1, g2, x, j, c, root, prefix + [i]);
    ReachedTwice(g2, root, own, x, q, prefix + [i]);
  }

  // ---- Exactly when ----

  /** After an update for `w` called while the spare was linked and not yet
      replaced, the tables are a tree under some owners exactly if the page `w`
      reaches had its page table; otherwise the spare is linked twice. */
  lemma ReuseIff(s: Pages, q: seq<Index>, t: Addr, flags: bv8, prot: bv8, w: Word, p: Word, flags': bv8, prot': bv8)
    requires LacksEntry(s, q, t, prot) && ProtClear(prot', s.filter) && I4(w) < 64
    ensures |s.backup| == 3
    ensures var l := Linked(s, t, q[2], flags, prot);
            (exists own :: Tree(GraphOf(Update(l, w, p, flags', prot').mem, s.filter), s.root, own)) <==>
            HasTable(l, Alias(w))
  {
    LinkedIsSound(s, q, t, flags, prot);
    if HasTable(Linked(s, t, q[2], flags, prot), Alias(w)) {
      TableThere(s, q, t, flags, prot, w, p, flags', prot');
    } else {
      forall own
        ensures !Tree(GraphOf(Update(Linked(s, t, q[2], flags, prot), w, p, flags', prot').mem, s.filter), s.root, own)
      {
        TableMissing(s, q, t, flags, prot, w, p, flags', prot', own);
      }
    }
  }

  lemma TableThere(s: Pages, q: seq<Index>, t: Addr, flags: bv8, prot: bv8, w: Word, p: Word, flags': bv8, prot': bv8)
    requires LacksEntry(s, q, t, prot) && ProtClear(prot', s.filter) && I4(w) < 64 && |s.backup| == 3
    requires HasTable(Linked(s, t, q[2], flags, prot), Alias(w))
    ensures exists own ::
              Tree(GraphOf(Update(Linked(s, t, q[2], flags, prot), w, p, flags', prot').mem, s.filter), s.root, own)
  {
    hide GraphOf, Tree, TableAt, FilterOk, ProtClear, Distinct, Edge, Path, Alias, Update, MapPage, Directory, I4;
    hide LeafStep, Clear, Spare;
    LinkedIsSound(s, q, t, flags, prot);
    var a, l := LinkAt(s, 2, t, q[2], flags, prot), Linked(s, t, q[2], flags, prot);
    var r := Path(Alias(w));
    UpdateFrom(a, a, w, p, flags', prot');
    UpdateFrom(a, l, w, p, flags', prot');
    DirectorySound(a, r, flags', prot');
    UpdateIsMap(a, w, p, flags', prot');
    MapKeepsReady(a, w, p, flags', prot');
    assert Tree(GraphIn(MapPage(a, w, p, flags', prot')), s.root, MapPage(a, w, p, flags', prot').own);
  }

  lemma TableMissing(s: Pages, q: seq<Index>, t: Addr, flags: bv8, prot: bv8, w: Word, p: Word, flags': bv8,
                     prot': bv8, own: Owners)
    requires LacksEntry(s, q, t, prot) && ProtClear(prot', s.filter) && I4(w) < 64 && |s.backup| == 3
    requires !HasTable(Linked(s, t, q[2], flags, prot), Alias(w))
    ensures !Tree(GraphOf(Update(Linked(s, t, q[2], flags, prot), w, p, flags', prot').mem, s.filter), s.root, own)
  {
    hide GraphOf, Tree, TableAt, FilterOk, ProtClear, Distinct, Edge, Path, Alias, Update, Directory, I4, Clear, Spare;
    hide Present, Target, TableEntry, LeafEntry;
    LinkedIsSound(s, q, t, flags, prot);
    var a, l, x := LinkAt(s, 2, t, q[2], flags, prot), Linked(s, t, q[2], flags, prot), s.backup[2];
    var r := Path(Alias(w));
    UpdateFrom(a, l, w, p, flags', prot');
    DirectorySound(a, r, flags', prot');
    DirectoryKeeps(a, r, flags', prot', q[..3], x);
    var (b, u) := Directory(a, r, flags', prot');
    var e, leaf := TableEntry(s.filter, flags', x.word, prot'), LeafEntry(s.filter, flags', p, prot');
    SpareEntry(s.filter, flags', x, prot');
    LeafTarget(s.filter, flags', p, prot');
    StoredTwice(b, u, r[2], q[..3], r, x, e, r[3], leaf, own);
  }
}
