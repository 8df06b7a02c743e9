/** Paging structures in a flat memory of 64-bit words: where entries lie, what
    they refer to, and the graph a memory stands for
    (kernel/src/code/mem/page_map.c lines 94-164). */
module PageTables {
  import opened PageEntry
  import opened Options
  import opened Radix

  /** Words by byte address.  A word the map does not hold reads as 0, so every
      content of memory is some such map. */
  type Memory = map<Addr, Word>

  function Load(m: Memory, a: Addr): Word {
    if a in m then m[a] else 0
  }

  /** The address of entry `i` of table `t`. */
  function Cell(t: Addr, i: Index): Addr {
    At(Slot(t.word, Wide(i.n)))
  }

  function Entry(m: Memory, t: Addr, i: Index): Word {
    Load(m, Cell(t, i))
  }

  /** The table or frame an entry refers to. */
  function Target(f: Word, e: Word): Addr {
    At(Mask(e, f))
  }

  /** The graph of the present entries of all page-aligned tables. */
  ghost function GraphOf(m: Memory, f: Word): Graph {
    imap t: Addr, i: Index | Aligned(t.word) && Present(Entry(m, t, i)) :: (t, i) := Target(f, Entry(m, t, i))
  }

  lemma NextOf(m: Memory, f: Word, t: Addr, i: Index)
    ensures Next(GraphOf(m, f), t, i) ==
            if Aligned(t.word) && Present(Entry(m, t, i)) then Some(Target(f, Entry(m, t, i))) else None
  {
  }

  lemma CellInjective(t: Addr, i: Index, s: Addr, j: Index)
    requires Aligned(t.word) && Aligned(s.word) && Cell(t, i) == Cell(s, j)
    ensures s == t && j == i
  {
    SlotInjective(t.word, Wide(i.n), s.word, Wide(j.n));
  }

  /** A store into an entry leaves every other entry of every table alone. */
  lemma StoreFrame(m: Memory, t: Addr, i: Index, e: Word, s: Addr, j: Index)
    requires Aligned(t.word) && Aligned(s.word) && (s != t || j != i)
    ensures Entry(m[Cell(t, i) := e], s, j) == Entry(m, s, j)
  {
    if Cell(t, i) == Cell(s, j) { CellInjective(t, i, s, j); }
  }

  /** Storing a present entry adds one edge to the graph. */
  lemma StoreIsEdge(m: Memory, f: Word, t: Addr, i: Index, e: Word)
    requires Aligned(t.word) && Present(e)
    ensures Edge(GraphOf(m, f), GraphOf(m[Cell(t, i) := e], f), t, i, Target(f, e))
  {
    hide Slot, Wide, Mask, Present, Aligned;
    var m' := m[Cell(t, i) := e];
    NextOf(m', f, t, i);
    forall s, j | s != t || j != i
      ensures Next(GraphOf(m', f), s, j) == Next(GraphOf(m, f), s, j)
    {
      NextOf(m, f, s, j);
      NextOf(m', f, s, j);
      if Aligned(s.word) { StoreFrame(m, t, i, e, s, j); }
    }
  }

  lemma Widen(x: Word)
    requires x < 512
    ensures Wide(x as bv9) == x
  {
  }

  /** The four indices of a linear address. */
  function Path(v: Word): seq<Index> {
    IndexBounds(v);
    [Ix(I4(v) as bv9), Ix(I3(v) as bv9), Ix(I2(v) as bv9), Ix(I1(v) as bv9)]
  }

  lemma PathWords(v: Word)
    ensures |Path(v)| == 4
    ensures Wide(Path(v)[0].n) == I4(v)
    ensures Wide(Path(v)[1].n) == I3(v)
    ensures Wide(Path(v)[2].n) == I2(v)
    ensures Wide(Path(v)[3].n) == I1(v)
  {
    IndexBounds(v);
    Widen(I4(v));
    Widen(I3(v));
    Widen(I2(v));
    Widen(I1(v));
  }

  /** Two addresses share their path exactly if they share their page. */
  lemma SamePath(v: Word, w: Word)
    ensures Path(v) == Path(w) <==> PageOf(v) == PageOf(w)
  {
    PageIndices(v, w);
    if Path(v) == Path(w) {
      PathWords(v);
      PathWords(w);
    }
  }

  lemma FilterKeepsPath(f: Word, v: Word)
    requires FilterOk(f)
    ensures Path(Mask(v, f)) == Path(v)
  {
    FilteredIndices(f, v);
    PageIndices(Mask(v, f), v);
    SamePath(Mask(v, f), v);
  }
}
