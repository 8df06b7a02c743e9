/** `page_map_PML4` and `page_trace_PML4` as they run: loads and stores through
    word addresses (kernel/src/code/mem/page_map.c lines 44-164). */
module PageMapper {
  import opened PageEntry
  import opened Options
  import opened Radix
  import opened PageTables
  import opened PageMapping
  import opened PageSteps

  class Mapper {
    const root: Addr
    const filter: Word
    var mem: Memory
    var pml4Backup: Addr
    var pdptBackup: Addr
    var pdBackup: Addr
    /** What the next calls of `mem_alloc(0x1000, 0x1000)` return. */
    var supply: seq<Addr>
    ghost var own: Owners

    ghost function View(): Pages
      reads this
    {
      Pages(root, filter, mem, own, [pml4Backup, pdptBackup, pdBackup], supply)
    }

    ghost predicate Valid()
      reads this
    {
      Ready(View())
    }

    /** Tables and spares as the boot code leaves them. */
    constructor (start: Pages)
      requires Ready(start)
      ensures Valid() && View() == start
    {
      root, filter, mem, own := start.root, start.filter, start.mem, start.own;
      pml4Backup, pdptBackup, pdBackup := start.backup[0], start.backup[1], start.backup[2];
      supply := start.supply;
      new;
      assert [pml4Backup, pdptBackup, pdBackup] == start.backup;
    }

    /** `page_construct_PML4_E`, `_PDPT_E` and `_PD_E`. */
    method ConstructTableEntry(entry: Addr, flags: bv8, addr: Word, prot: bv8)
      modifies this`mem
      ensures mem == old(mem)[entry := TableEntry(filter, flags, addr, prot)]
    {
      var e: Word := 0;
      hide TableEntry;
      TableEntryParts(filter, flags, addr, prot);
      e := e | ((flags | 1) as Word);
      e := e | (addr & filter);
      e := e | (((prot & 0x1) as Word) << 63);
      mem := mem[entry := e];
    }

    /** `page_construct_PT_E`. */
    method ConstructLeafEntry(entry: Addr, flags: bv8, addr: Word, prot: bv8)
      modifies this`mem
      ensures mem == old(mem)[entry := LeafEntry(filter, flags, addr, prot)]
    {
      var e: Word := 0;
      hide LeafEntry;
      LeafEntryParts(filter, flags, addr, prot);
      e := e | (((flags as Word) << 1) | 1);
      e := e | (addr & filter);
      e := e | (((prot & 0x1F) as Word) << 59);
      mem := mem[entry := e];
    }

    /** The nested `mem_alloc(0x1000, 0x1000)`. */
    method TakeSpare() returns (x: Addr)
      requires supply != []
      modifies this`supply
      ensures x == old(supply)[0] && supply == old(supply)[1..]
    {
      x := supply[0];
      supply := supply[1..];
    }

    /** Lines 100-105. */
    method NeedPdpt(entry: Addr, flags: bv8, prot: bv8) returns (base: Addr)
      requires supply != []
      modifies `mem, `pml4Backup, `supply
      ensures View() == LinkStep(old(View()), 0, entry, flags, prot)
      ensures base == Target(filter, Load(mem, entry))
    {
      hide TableEntry, Mask;
      if Load(mem, entry) & 1 != 1 {
        ConstructTableEntry(entry, flags, pml4Backup.word, prot);
        pml4Backup := TakeSpare();
      }
      base := At(Mask(Load(mem, entry), filter));
    }

    /** Lines 107-112. */
    method NeedPd(entry: Addr, flags: bv8, prot: bv8) returns (base: Addr)
      requires supply != []
      modifies `mem, `pdptBackup, `supply
      ensures View() == LinkStep(old(View()), 1, entry, flags, prot)
      ensures base == Target(filter, Load(mem, entry))
    {
      hide TableEntry, Mask;
      if Load(mem, entry) & 1 != 1 {
        ConstructTableEntry(entry, flags, pdptBackup.word, prot);
        pdptBackup := TakeSpare();
      }
      base := At(Mask(Load(mem, entry), filter));
    }

    /** Lines 114-120. */
    method NeedPt(entry: Addr, flags: bv8, prot: bv8) returns (base: Addr)
      requires supply != []
      modifies `mem, `pdBackup, `supply
      ensures View() == LinkStep(old(View()), 2, entry, flags, prot)
      ensures base == Target(filter, Load(mem, entry))
    {
      hide TableEntry, Mask;
      if Load(mem, entry) & 1 != 1 {
        ConstructTableEntry(entry, flags, pdBackup.word, prot);
        pdBackup := TakeSpare();
      }
      base := At(Mask(Load(mem, entry), filter));
    }

    /** The update, whatever the state; where the tables are a tree it is
        `MapPage`, and the owners follow. */
    method Map(v: Word, p: Word, flags: bv8, prot: bv8)
      requires |supply| >= 3
      modifies this
      ensures View().(own := old(own)) == Update(old(View()), v, p, flags, prot)
      ensures old(CanMap(View(), v, prot)) ==> Valid() && View() == MapPage(old(View()), v, p, flags, prot)
    {
      hide I4, I3, I2, I1, MapSlot4, CanMap, MapPage, Slot, LeafEntry, Mask, Ready, LinkStep;
      ghost var s := View();
      LinkStepSupply();
      var vaddr, paddr := Mask(v, filter), Mask(p, filter);
      var pml4E := At(MapSlot4(root.word, vaddr));
      var pdptB := NeedPdpt(pml4E, flags, prot);
      var pdptE := At(Slot(pdptB.word, I3(vaddr)));
      var pdB := NeedPd(pdptE, flags, prot);
      var pdE := At(Slot(pdB.word, I2(vaddr)));
      var ptB := NeedPt(pdE, flags, prot);
      var ptE := At(Slot(ptB.word, I1(vaddr)));
      ConstructLeafEntry(ptE, flags, paddr, prot);
      assert View() == Update(s, v, p, flags, prot);
      if CanMap(s, v, prot) {
        MapKeepsReady(s, v, p, flags, prot);
        UpdateIsMap(s, v, p, flags, prot);
        own := MapPage(s, v, p, flags, prot).own;
      }
    }

    /** Loads the entry at `entry`: is it present, and where does it lead? */
    method Follow(entry: Addr, ghost t: Addr, ghost i: Index) returns (present: bool, base: Addr)
      requires FilterOk(filter) && entry == Cell(t, i) && Aligned(t.word)
      ensures Next(GraphOf(mem, filter), t, i) == if present then Some(base) else None
      ensures Aligned(base.word)
    {
      hide Slot, GraphOf;
      NextOf(mem, filter, t, i);
      present := Load(mem, entry) & 1 == 1;
      base := At(Mask(Load(mem, entry), filter));
    }

    /** The lookup, given the four indices. */
    method TraceAt(i4: Word, i3: Word, i2: Word, i1: Word, ghost q: seq<Index>) returns (code: nat, paddr: Addr)
      requires FilterOk(filter) && Aligned(root.word)
      requires |q| == 4 && i4 == Wide(q[0].n) && i3 == Wide(q[1].n) && i2 == Wide(q[2].n) && i1 == Wide(q[3].n)
      ensures match TraceFrom(GraphOf(mem, filter), root, q)
              case Mapped(x) => code == 0 && paddr == x
              case Missing(c) => code == c
    {
      hide Slot, GraphOf, FilterOk, Aligned, TraceFrom, Mask, Wide;
      TraceUnfolds(GraphOf(mem, filter), root, q);
      paddr := At(0);
      var ok4, pdptB := Follow(At(Slot(root.word, i4)), root, q[0]);
      if !ok4 { return 4, paddr; }
      var ok3, pdB := Follow(At(Slot(pdptB.word, i3)), pdptB, q[1]);
      if !ok3 { return 3, paddr; }
      var ok2, ptB := Follow(At(Slot(pdB.word, i2)), pdB, q[2]);
      if !ok2 { return 2, paddr; }
      var ok1, frame := Follow(At(Slot(ptB.word, i1)), ptB, q[3]);
      if !ok1 { return 1, paddr; }
      return 0, frame;
    }

    /** Returns 0 and the frame, or the level of the missing entry. */
    method TracePage(v: Word) returns (code: nat, paddr: Addr)
      requires FilterOk(filter) && Aligned(root.word)
      ensures match Trace(View(), v)
              case Mapped(x) => code == 0 && paddr == x
              case Missing(c) => code == c
    {
      hide I4, I3, I2, I1, Path, TraceFrom, GraphOf, FilterOk, Aligned, Mask, Wide;
      var vaddr := Mask(v, filter);
      PathWords(vaddr);
      code, paddr := TraceAt(I4(vaddr), I3(vaddr), I2(vaddr), I1(vaddr), Path(vaddr));
    }
  }

  lemma TableEntryParts(f: Word, flags: bv8, addr: Word, prot: bv8)
    ensures TableEntry(f, flags, addr, prot) ==
            ((0 | ((flags | 1) as Word)) | (addr & f)) | (((prot & 0x1) as Word) << 63)
  {
  }

  lemma LeafEntryParts(f: Word, flags: bv8, addr: Word, prot: bv8)
    ensures LeafEntry(f, flags, addr, prot) ==
            ((0 | (((flags as Word) << 1) | 1)) | (addr & f)) | (((prot & 0x1F) as Word) << 59)
  {
  }

  /** The lookup as a chain of four steps. */
  lemma TraceUnfolds(g: Graph, root: Addr, q: seq<Index>)
    requires |q| == 4
    ensures TraceFrom(g, root, q) ==
            match Next(g, root, q[0])
            case None => Missing(4)
            case Some(pdpt) =>
              match Next(g, pdpt, q[1])
              case None => Missing(3)
              case Some(pd) =>
                match Next(g, pd, q[2])
                case None => Missing(2)
                case Some(pt) =>
                  match Next(g, pt, q[3])
                  case None => Missing(1)
                  case Some(x) => Mapped(x)
  {
    if Next(g, root, q[0]).Some? {
      var pdpt := Next(g, root, q[0]).value;
      TraceUnfoldsOnce(g, pdpt, q[1..]);
      if Next(g, pdpt, q[1]).Some? {
        var pd := Next(g, pdpt, q[1]).value;
        TraceUnfoldsOnce(g, pd, q[2..]);
        if Next(g, pd, q[2]).Some? {
          TraceUnfoldsOnce(g, Next(g, pd, q[2]).value, q[3..]);
        }
      }
    }
  }

  lemma TraceUnfoldsOnce(g: Graph, t: Addr, q: seq<Index>)
    requires q != []
    ensures TraceFrom(g, t, q) ==
            match Next(g, t, q[0]) case None => Missing(|q|) case Some(c) => TraceFrom(g, c, q[1..])
  {
  }
}
