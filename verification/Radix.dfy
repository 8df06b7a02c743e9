/** A radix tree as a graph: which table each entry of each table refers to.
    Walks, the tree invariant, and what one new edge does to every walk.  This
    is the structure of 4-level paging (Intel SDM, Volume 3A, section 4.5)
    without its bit encoding. */
module Radix {
  import opened Options

  /** The address of a word, a table or a frame. */
  datatype Addr = At(word: bv64)

  /** A position in a table of 512 entries. */
  datatype Index = Ix(n: bv9)

  /** Entry `i` of table `t` refers to `g[(t, i)]`; an absent pair is an entry
      that is not present. */
  type Graph = imap<(Addr, Index), Addr>

  function Next(g: Graph, t: Addr, i: Index): Option<Addr> {
    if (t, i) in g then Some(g[(t, i)]) else None
  }

  /** The address reached from table `t` through the given indices. */
  function Descend(g: Graph, t: Addr, path: seq<Index>): Option<Addr>
    decreases |path|
  {
    if path == [] then Some(t)
    else
      match Next(g, t, path[0])
      case None => None
      case Some(c) => Descend(g, c, path[1..])
  }

  /** Who refers to a table: nobody (the root), or entry `index` of `parent`.
      A PDPT has level 3, a page directory 2, a page table 1. */
  datatype Ref = Root | Link(level: nat, parent: Addr, index: Index)

  type Owners = map<Addr, Ref>

  function Level(r: Ref): nat {
    if r.Root? then 4 else r.level
  }

  /** Every edge out of a table above the last level ends at a table whose one
      recorded owner is that very entry. */
  ghost predicate Downward(g: Graph, own: Owners) {
    forall t, i :: t in own && Level(own[t]) >= 2 && Next(g, t, i).Some? ==>
      Next(g, t, i).value in own && own[Next(g, t, i).value] == Link(Level(own[t]) - 1, t, i)
  }

  ghost predicate Owned(g: Graph, own: Owners, c: Addr)
    requires c in own
  {
    own[c].Link? ==>
      && 1 <= own[c].level <= 3
      && own[c].parent in own
      && Level(own[own[c].parent]) == own[c].level + 1
      && Next(g, own[c].parent, own[c].index) == Some(c)
  }

  /** The tables form a tree below `root`: `own` is exactly the relation
      "is referred to by", and it gives each table one owner. */
  ghost predicate Tree(g: Graph, root: Addr, own: Owners) {
    && root in own
    && (forall t :: t in own ==> (own[t] == Root <==> t == root))
    && (forall c :: c in own ==> Owned(g, own, c))
    && Downward(g, own)
  }

  ghost predicate Clear(g: Graph, t: Addr) {
    forall i :: Next(g, t, i) == None
  }

  lemma RootLevel(g: Graph, root: Addr, own: Owners)
    requires Tree(g, root, own)
    ensures root in own && Level(own[root]) == 4
  {
  }

  lemma LowLevel(g: Graph, root: Addr, own: Owners, c: Addr)
    requires Tree(g, root, own) && c in own
    ensures 1 <= Level(own[c]) <= 4
  {
    assert Owned(g, own, c);
  }

  lemma ChildLevel(g: Graph, root: Addr, own: Owners, t: Addr, i: Index)
    requires Tree(g, root, own) && t in own && Level(own[t]) >= 2 && Next(g, t, i).Some?
    ensures Next(g, t, i).value in own && Level(own[Next(g, t, i).value]) == Level(own[t]) - 1
  {
  }

  // ---- Walks stay inside the tree and never meet ----

  lemma {:induction false} DescendSnoc(g: Graph, t: Addr, path: seq<Index>, i: Index)
    ensures Descend(g, t, path + [i]) ==
            match Descend(g, t, path) case None => None case Some(c) => Next(g, c, i)
    decreases |path|
  {
    var whole := path + [i];
    if path == [] {
      assert whole == [i];
      match Next(g, t, i) {
        case None =>
        case Some(c) => assert Descend(g, c, whole[1..]) == Some(c);
      }
    } else {
      assert whole[0] == path[0] && whole[1..] == path[1..] + [i];
      match Next(g, t, path[0]) {
        case None =>
        case Some(c) => DescendSnoc(g, c, path[1..], i);
      }
    }
  }

  /** A walk that starts in the tree and stops above the frames ends at a table
      of the tree, as many levels down as it has steps. */
  lemma {:induction false} DescendInside(g: Graph, root: Addr, own: Owners, t: Addr, path: seq<Index>)
    requires Tree(g, root, own) && t in own
    requires |path| < Level(own[t])
    requires Descend(g, t, path).Some?
    ensures Descend(g, t, path).value in own
    ensures Level(own[Descend(g, t, path).value]) == Level(own[t]) - |path|
    decreases |path|
  {
    if path != [] {
      var c := Next(g, t, path[0]).value;
      DescendInside(g, root, own, c, path[1..]);
    }
  }

  /** Two walks of equal length from one table end at the same table only if
      they took the same indices: no table is shared. */
  lemma {:induction false} DescendInjective(g: Graph, root: Addr, own: Owners, t: Addr, p: seq<Index>, q: seq<Index>)
    requires Tree(g, root, own) && t in own
    requires |p| == |q| < Level(own[t])
    requires Descend(g, t, p).Some? && Descend(g, t, p) == Descend(g, t, q)
    ensures p == q
    decreases |p|
  {
    if p != [] {
      var n := |p| - 1;
      assert p == p[..n] + [p[n]] && q == q[..n] + [q[n]];
      DescendSnoc(g, t, p[..n], p[n]);
      DescendSnoc(g, t, q[..n], q[n]);
      DescendInside(g, root, own, t, p[..n]);
      DescendInside(g, root, own, t, q[..n]);
      var a, b := Descend(g, t, p[..n]).value, Descend(g, t, q[..n]).value;
      assert Next(g, a, p[n]) == Next(g, b, q[n]);
      assert a == b && p[n] == q[n];
      DescendInjective(g, root, own, t, p[..n], q[..n]);
    }
  }

  /** `own` holds nothing else: each of its tables is reached by some walk. */
  lemma {:induction false} OwnedIsReached(g: Graph, root: Addr, own: Owners, c: Addr) returns (path: seq<Index>)
    requires Tree(g, root, own) && c in own
    ensures |path| == 4 - Level(own[c]) && Descend(g, root, path) == Some(c)
    decreases 4 - Level(own[c])
  {
    assert Owned(g, own, c);
    if c == root {
      path := [];
    } else {
      var r := own[c];
      assert Owned(g, own, r.parent);
      var up := OwnedIsReached(g, root, own, r.parent);
      DescendSnoc(g, root, up, r.index);
      path := up + [r.index];
    }
  }

  /** The tables that walks of at most three steps reach are exactly those of
      the tree, and each is reached by one walk only. */
  lemma TreeIsReachable(g: Graph, root: Addr, own: Owners, c: Addr)
    requires Tree(g, root, own)
    ensures c in own <==> exists path :: |path| <= 3 && Descend(g, root, path) == Some(c)
    ensures forall p, q :: |p| <= 3 && |q| <= 3 && Descend(g, root, p) == Some(c) == Descend(g, root, q) ==> p == q
  {
    if c in own {
      var path := OwnedIsReached(g, root, own, c);
      assert Owned(g, own, c);
      assert |path| <= 3;
    }
    forall p | |p| <= 3 && Descend(g, root, p) == Some(c)
      ensures c in own && |p| == 4 - Level(own[c])
    {
      DescendInside(g, root, own, root, p);
    }
    forall p, q | |p| <= 3 && |q| <= 3 && Descend(g, root, p) == Some(c) == Descend(g, root, q)
      ensures p == q
    {
      DescendInjective(g, root, own, root, p, q);
    }
  }

  // ---- One new edge ----

  /** `g'` has the edge from entry `i` of `t` to `c` and otherwise equals `g`. */
  ghost predicate Edge(g: Graph, g': Graph, t: Addr, i: Index, c: Addr) {
    && Next(g', t, i) == Some(c)
    && (forall s, j :: s != t || j != i ==> Next(g', s, j) == Next(g, s, j))
  }

  /** The edge starts at a free entry above the last level and ends at an empty
      table outside the tree. */
  ghost predicate Linkable(g: Graph, root: Addr, own: Owners, t: Addr, i: Index, c: Addr) {
    && Tree(g, root, own)
    && t in own && Level(own[t]) >= 2
    && Next(g, t, i) == None
    && c !in own && Clear(g, c)
  }

  function Adopt(own: Owners, t: Addr, i: Index, c: Addr): Owners
    requires t in own
  {
    own[c := Link(if Level(own[t]) > 0 then Level(own[t]) - 1 else 0, t, i)]
  }

  lemma LinkOwned(g: Graph, g': Graph, root: Addr, own: Owners, t: Addr, i: Index, s: Addr, c: Addr)
    requires Tree(g, root, own) && t in own && Level(own[t]) >= 2 && Next(g, t, i) == None && s !in own
    requires Edge(g, g', t, i, s) && c in Adopt(own, t, i, s)
    ensures Owned(g', Adopt(own, t, i, s), c)
  {
    if c in own {
      assert Owned(g, own, c);
    } else {
      assert Owned(g, own, t);
    }
  }

  lemma LinkDownward(g: Graph, g': Graph, root: Addr, own: Owners, t: Addr, i: Index, s: Addr)
    requires Tree(g, root, own) && t in own && Level(own[t]) >= 2 && Next(g, t, i) == None && s !in own
    requires Edge(g, g', t, i, s) && (Level(own[t]) == 2 || Clear(g, s))
    ensures Downward(g', Adopt(own, t, i, s))
  {
    var own' := Adopt(own, t, i, s);
    forall u, j | u in own' && Level(own'[u]) >= 2 && Next(g', u, j).Some?
      ensures Next(g', u, j).value in own' && own'[Next(g', u, j).value] == Link(Level(own'[u]) - 1, u, j)
    {
      if u != s && (u != t || j != i) {
        assert Next(g', u, j) == Next(g, u, j);
      }
    }
  }

  /** Linking an empty outside table into a free entry keeps the tree. */
  lemma LinkKeepsTree(g: Graph, g': Graph, root: Addr, own: Owners, t: Addr, i: Index, s: Addr)
    requires Linkable(g, root, own, t, i, s) && Edge(g, g', t, i, s)
    ensures Tree(g', root, Adopt(own, t, i, s))
  {
    LinkDownward(g, g', root, own, t, i, s);
    forall c | c in Adopt(own, t, i, s) ensures Owned(g', Adopt(own, t, i, s), c) {
      LinkOwned(g, g', root, own, t, i, s, c);
    }
  }

  /** ... and changes no full walk: the new table is empty. */
  lemma {:induction false} LinkKeepsWalk(g: Graph, g': Graph, root: Addr, own: Owners, t: Addr, i: Index, s: Addr,
                                         from: Addr, path: seq<Index>)
    requires Linkable(g, root, own, t, i, s) && Edge(g, g', t, i, s)
    requires from in own && |path| == Level(own[from])
    ensures Descend(g', from, path) == Descend(g, from, path)
    decreases |path|
  {
    if path != [] {
      if from == t && path[0] == i {
        assert Next(g', s, path[1]) == Next(g, s, path[1]) == None;
        assert Next(g', s, path[1..][0]) == None;
        assert Descend(g', s, path[1..]) == None;
      } else {
        assert Next(g', from, path[0]) == Next(g, from, path[0]);
        if Next(g, from, path[0]).Some? && |path| > 1 {
          LinkKeepsWalk(g, g', root, own, t, i, s, Next(g, from, path[0]).value, path[1..]);
        }
      }
    }
  }

  /** A successful walk survives an edge from a free entry. */
  lemma {:induction false} LinkKeepsPrefix(g: Graph, g': Graph, t: Addr, i: Index, s: Addr, from: Addr,
                                           path: seq<Index>)
    requires Next(g, t, i) == None && Edge(g, g', t, i, s)
    requires Descend(g, from, path).Some?
    ensures Descend(g', from, path) == Descend(g, from, path)
    decreases |path|
  {
    if path != [] {
      assert Next(g', from, path[0]) == Next(g, from, path[0]);
      LinkKeepsPrefix(g, g', t, i, s, Next(g, from, path[0]).value, path[1..]);
    }
  }

  /** An edge out of a last-level table keeps the tree, wherever it ends. */
  lemma LeafKeepsTree(g: Graph, g': Graph, root: Addr, own: Owners, t: Addr, i: Index, c: Addr)
    requires Tree(g, root, own) && t in own && Level(own[t]) == 1 && Edge(g, g', t, i, c)
    ensures Tree(g', root, own)
  {
    forall x | x in own ensures Owned(g', own, x) {
      assert Owned(g, own, x);
    }
    forall u, j | u in own && Level(own[u]) >= 2 && Next(g', u, j).Some?
      ensures Next(g', u, j).value in own && own[Next(g', u, j).value] == Link(Level(own[u]) - 1, u, j)
    {
      assert Next(g', u, j) == Next(g, u, j);
    }
  }

  /** ... and leaves every walk above the frames where it was. */
  lemma {:induction false} LeafKeepsUpperWalk(g: Graph, g': Graph, root: Addr, own: Owners, t: Addr, i: Index, c: Addr,
                                              from: Addr, path: seq<Index>)
    requires Tree(g, root, own) && t in own && Level(own[t]) == 1 && Edge(g, g', t, i, c)
    requires from in own && |path| < Level(own[from])
    ensures Descend(g', from, path) == Descend(g, from, path)
    decreases |path|
  {
    if path != [] {
      assert Next(g', from, path[0]) == Next(g, from, path[0]);
      if Next(g, from, path[0]).Some? {
        LeafKeepsUpperWalk(g, g', root, own, t, i, c, Next(g, from, path[0]).value, path[1..]);
      }
    }
  }

  lemma PathSplit(g: Graph, root: Addr, q: seq<Index>)
    requires |q| == 4
    ensures Descend(g, root, q) ==
            match Descend(g, root, q[..3]) case None => None case Some(pt) => Next(g, pt, q[3])
  {
    assert q == q[..3] + [q[3]];
    DescendSnoc(g, root, q[..3], q[3]);
  }

  /** An edge out of the page table that `path` leads to changes the walk along
      `path` and no other full walk. */
  lemma LeafChangesOneWalk(g: Graph, g': Graph, root: Addr, own: Owners, pt: Addr, c: Addr, path: seq<Index>,
                           q: seq<Index>)
    requires Tree(g, root, own) && |path| == |q| == 4
    requires Descend(g, root, path[..3]) == Some(pt) && pt in own && Level(own[pt]) == 1
    requires Edge(g, g', pt, path[3], c)
    ensures Descend(g', root, q) == if q == path then Some(c) else Descend(g, root, q)
  {
    LeafKeepsUpperWalk(g, g', root, own, pt, path[3], c, root, q[..3]);
    PathSplit(g, root, q);
    PathSplit(g', root, q);
    match Descend(g, root, q[..3]) {
      case None =>
      case Some(t) =>
        if t == pt {
          DescendInjective(g, root, own, root, q[..3], path[..3]);
          assert q == q[..3] + [q[3]] && path == path[..3] + [path[3]];
        }
    }
  }

  // ---- A spare that was not cleared ----

  lemma {:induction false} DescendAppend(g: Graph, t: Addr, p: seq<Index>, q: seq<Index>)
    ensures Descend(g, t, p + q) ==
            match Descend(g, t, p) case None => None case Some(c) => Descend(g, c, q)
    decreases |p|
  {
    if p == [] {
      assert p + q == q;
    } else {
      assert (p + q)[0] == p[0] && (p + q)[1..] == p[1..] + q;
      if Next(g, t, p[0]).Some? { DescendAppend(g, Next(g, t, p[0]).value, p[1..], q); }
    }
  }

  /** A full walk keeps its result or passes through the new edge, after `n`
      steps. */
  lemma {:induction false} SameOrThrough(g: Graph, g': Graph, root: Addr, own: Owners, t: Addr, i: Index, s: Addr,
                                         from: Addr, path: seq<Index>) returns (n: nat)
    requires Tree(g, root, own) && Next(g, t, i) == None && Edge(g, g', t, i, s)
    requires from in own && |path| == Level(own[from])
    ensures n < |path| ==> Descend(g, from, path[..n]) == Some(t) && path[n] == i
    ensures n >= |path| ==> Descend(g', from, path) == Descend(g, from, path)
    decreases |path|
  {
    n := |path|;
    if path != [] {
      if from == t && path[0] == i {
        n := 0;
      } else {
        assert Next(g', from, path[0]) == Next(g, from, path[0]);
        if Next(g, from, path[0]).Some? && |path| > 1 {
          var m := SameOrThrough(g, g', root, own, t, i, s, Next(g, from, path[0]).value, path[1..]);
          n := m + 1;
          assert m < |path| - 1 ==> path[..n][0] == path[0] && path[..n][1..] == path[1..][..m];
        }
      }
    }
  }

  /** The walks through the new edge found nothing before, and now go on from
      the linked table. */
  lemma WalkThroughEdge(g: Graph, g': Graph, root: Addr, prefix: seq<Index>, t: Addr, i: Index, s: Addr, r: seq<Index>)
    requires Descend(g, root, prefix) == Some(t) && Next(g, t, i) == None && Edge(g, g', t, i, s)
    ensures Descend(g, root, prefix + [i] + r) == None
    ensures Descend(g', root, prefix + [i] + r) == Descend(g', s, r)
  {
    LinkKeepsPrefix(g, g', t, i, s, root, prefix);
    DescendSnoc(g, root, prefix, i);
    DescendSnoc(g', root, prefix, i);
    DescendAppend(g, root, prefix + [i], r);
    DescendAppend(g', root, prefix + [i], r);
  }

  lemma DeadSpareKeepsWalk(g: Graph, g': Graph, root: Addr, own: Owners, prefix: seq<Index>, t: Addr, i: Index,
                           s: Addr, q: seq<Index>)
    requires Tree(g, root, own) && |prefix| <= 2 && Descend(g, root, prefix) == Some(t) && |q| == 4
    requires Next(g, t, i) == None && Edge(g, g', t, i, s)
    requires forall r :: |r| == 3 - |prefix| ==> Descend(g', s, r) == None
    ensures Descend(g', root, q) == Descend(g, root, q)
  {
    hide Tree, Edge, Descend, Next;
    RootLevel(g, root, own);
    var n := SameOrThrough(g, g', root, own, t, i, s, root, q);
    if n < 4 {
      DescendInside(g, root, own, root, prefix);
      DescendInside(g, root, own, root, q[..n]);
      DescendInjective(g, root, own, root, q[..n], prefix);
      assert q == prefix + [i] + q[n + 1..];
      WalkThroughEdge(g, g', root, prefix, t, i, s, q[n + 1..]);
    }
  }

  /** Linking the table `s`, whatever it holds, into the free entry `i` of the
      table that `prefix` leads to: every full walk keeps its result exactly if
      no walk from `s` down to the frames succeeds. */
  lemma LinkKeepsWalksIff(g: Graph, g': Graph, root: Addr, own: Owners, prefix: seq<Index>, t: Addr, i: Index, s: Addr)
    requires Tree(g, root, own) && |prefix| <= 2 && Descend(g, root, prefix) == Some(t)
    requires Next(g, t, i) == None && Edge(g, g', t, i, s)
    ensures (forall q :: |q| == 4 ==> Descend(g', root, q) == Descend(g, root, q)) <==>
            (forall r :: |r| == 3 - |prefix| ==> Descend(g', s, r) == None)
  {
    if forall q :: |q| == 4 ==> Descend(g', root, q) == Descend(g, root, q) {
      forall r | |r| == 3 - |prefix| ensures Descend(g', s, r) == None {
        WalkThroughEdge(g, g', root, prefix, t, i, s, r);
        assert |prefix + [i] + r| == 4;
      }
    }
    if forall r :: |r| == 3 - |prefix| ==> Descend(g', s, r) == None {
      forall q | |q| == 4 ensures Descend(g', root, q) == Descend(g, root, q) {
        DeadSpareKeepsWalk(g, g', root, own, prefix, t, i, s, q);
      }
    }
  }

  /** For a spare linked as a page table: exactly if it holds no present entry. */
  lemma LinkKeepsWalksIffClear(g: Graph, g': Graph, root: Addr, own: Owners, prefix: seq<Index>, t: Addr, i: Index,
                               s: Addr)
    requires Tree(g, root, own) && |prefix| == 2 && Descend(g, root, prefix) == Some(t)
    requires Next(g, t, i) == None && s !in own && Edge(g, g', t, i, s)
    ensures (forall q :: |q| == 4 ==> Descend(g', root, q) == Descend(g, root, q)) <==> Clear(g, s)
  {
    LinkKeepsWalksIff(g, g', root, own, prefix, t, i, s);
    DescendInside(g, root, own, root, prefix);
    forall r: seq<Index> | |r| == 1 ensures Descend(g', s, r) == Next(g, s, r[0]) {
      assert r == [] + [r[0]];
      DescendSnoc(g', s, [], r[0]);
    }
    if forall r :: |r| == 1 ==> Descend(g', s, r) == None {
      forall j ensures Next(g, s, j) == None { assert Descend(g', s, [j]) == None; }
    }
  }

  /** The owners kept for a linked spare describe a tree exactly if the spare is
      a page table or holds no present entry. */
  lemma LinkKeepsTreeIff(g: Graph, g': Graph, root: Addr, own: Owners, t: Addr, i: Index, s: Addr)
    requires Tree(g, root, own) && t in own && Level(own[t]) >= 2
    requires Next(g, t, i) == None && s !in own && Edge(g, g', t, i, s)
    ensures Tree(g', root, Adopt(own, t, i, s)) <==> Level(own[t]) == 2 || Clear(g, s)
  {
    if Level(own[t]) == 2 || Clear(g, s) {
      LinkDownward(g, g', root, own, t, i, s);
      forall c | c in Adopt(own, t, i, s) ensures Owned(g', Adopt(own, t, i, s), c) {
        LinkOwned(g, g', root, own, t, i, s, c);
      }
    } else {
      StaleBreaksOwners(g, g', root, own, t, i, s);
    }
  }

  lemma StaleBreaksOwners(g: Graph, g': Graph, root: Addr, own: Owners, t: Addr, i: Index, s: Addr)
    requires Tree(g, root, own) && t in own && Level(own[t]) > 2 && s !in own
    requires Edge(g, g', t, i, s) && !Clear(g, s)
    ensures !Downward(g', Adopt(own, t, i, s))
  {
    var j :| Next(g, s, j) != None;
    var c := Next(g', s, j).value;
    assert Next(g', s, j) == Next(g, s, j);
    assert c in own ==> Owned(g, own, c);
  }

  /** If an upper spare still refers to a table of the tree, or to itself, then
      no owners describe a tree afterwards: that table is reached twice. */
  lemma StaleEntrySharesTable(g: Graph, g': Graph, root: Addr, own: Owners, prefix: seq<Index>, t: Addr, i: Index,
                              s: Addr, j: Index, own': Owners)
    requires Tree(g, root, own) && |prefix| <= 1 && Descend(g, root, prefix) == Some(t)
    requires Next(g, t, i) == None && s !in own && Edge(g, g', t, i, s)
    requires Next(g, s, j).Some? && (Next(g, s, j).value in own || Next(g, s, j).value == s)
    ensures !Tree(g', root, own')
  {
    hide Tree;
    var c := Next(g, s, j).value;
    RootLevel(g, root, own);
    DescendInside(g, root, own, root, prefix);
    WalkThroughEdge(g, g', root, prefix, t, i, s, []);
    WalkThroughEdge(g, g', root, prefix, t, i, s, [j]);
    assert prefix + [i] + [] == prefix + [i];
    DescendSnoc(g', s, [], j);
    assert [] + [j] == [j];
    var other := prefix + [i];
    if c in own {
      other := OwnedIsReached(g, root, own, c);
      LowLevel(g, root, own, c);
      LinkKeepsPrefix(g, g', t, i, s, root, other);
    }
    assert other != prefix + [i] + [j];
    ReachedTwice(g', root, own', c, other, prefix + [i] + [j]);
  }

  lemma ReachedTwice(g: Graph, root: Addr, own: Owners, c: Addr, p: seq<Index>, q: seq<Index>)
    requires |p| <= 3 && |q| <= 3 && p != q && Descend(g, root, p) == Some(c) == Descend(g, root, q)
    ensures !Tree(g, root, own)
  {
    if Tree(g, root, own) { TreeIsReachable(g, root, own, c); }
  }

  // ---- The lookup ----

  datatype Traced = Mapped(frame: Addr) | Missing(code: nat)

  /** The lookup from table `t` on; a missing entry is reported by the number
      of indices left. */
  function TraceFrom(g: Graph, t: Addr, q: seq<Index>): Traced
    decreases |q|
  {
    if q == [] then Mapped(t)
    else
      match Next(g, t, q[0])
      case None => Missing(|q|)
      case Some(c) => TraceFrom(g, c, q[1..])
  }

  /** A frame is reported exactly if the whole walk succeeds, and a missing
      level exactly where the walk first fails. */
  ghost predicate Answers(g: Graph, t: Addr, q: seq<Index>, r: Traced) {
    match r
    case Mapped(x) => Descend(g, t, q) == Some(x)
    case Missing(c) =>
      && 1 <= c <= |q|
      && Descend(g, t, q) == None
      && Descend(g, t, q[..|q| - c]).Some?
      && Descend(g, t, q[..|q| - c + 1]) == None
  }

  lemma {:induction false} TraceFromAnswers(g: Graph, t: Addr, q: seq<Index>)
    ensures Answers(g, t, q, TraceFrom(g, t, q))
    decreases |q|
  {
    if q != [] {
      match Next(g, t, q[0]) {
        case None =>
          assert q[..1][0] == q[0];
        case Some(c) =>
          TraceFromAnswers(g, c, q[1..]);
          var r := TraceFrom(g, t, q);
          if r.Missing? {
            var n := |q| - r.code;
            assert q[1..][..n - 1] == q[..n][1..] && q[1..][..n] == q[..n + 1][1..];
          }
      }
    }
  }
}
