/** `page_map_PML4` as a function of memory alone, in any state, and the proof
    that on a tree it is the update along the aliased page's indices
    (kernel/src/code/mem/page_map.c lines 94-123). */
module PageSteps {
  import opened PageEntry
  import opened Radix
  import opened PageTables
  import opened PageMapping

  /** Links spare `k` at the address `slot` if the entry there is free; nothing
      is said about the owners. */
  function LinkStep(s: Pages, k: nat, slot: Addr, flags: bv8, prot: bv8): Pages
    requires k < |s.backup| && |s.supply| >= 1
  {
    if Present(Load(s.mem, slot)) then s
    else
      s.(mem := s.mem[slot := TableEntry(s.filter, flags, s.backup[k].word, prot)],
         backup := s.backup[k := s.supply[0]],
         supply := s.supply[1..])
  }

  lemma LinkStepSupply()
    ensures forall s: Pages, k: nat, slot, flags, prot {:trigger LinkStep(s, k, slot, flags, prot)} ::
              k < |s.backup| && |s.supply| >= 1 ==>
                var s' := LinkStep(s, k, slot, flags, prot);
                s'.root == s.root && s'.filter == s.filter && |s'.backup| == |s.backup| && |s'.supply| >= |s.supply| - 1
  {
  }

  /** The loads and stores of the update. */
  function Update(s: Pages, v: Word, p: Word, flags: bv8, prot: bv8): Pages
    requires |s.backup| == 3 && |s.supply| >= 3
  {
    hide MapSlot4, Mask, Slot, I3, I2, I1, Target, Load, LeafEntry, LinkStep;
    LinkStepSupply();
    var f, vaddr := s.filter, Mask(v, s.filter);
    var pml4E := At(MapSlot4(s.root.word, vaddr));
    var s1 := LinkStep(s, 0, pml4E, flags, prot);
    var pdptE := At(Slot(Target(f, Load(s1.mem, pml4E)).word, I3(vaddr)));
    var s2 := LinkStep(s1, 1, pdptE, flags, prot);
    var pdE := At(Slot(Target(f, Load(s2.mem, pdptE)).word, I2(vaddr)));
    var s3 := LinkStep(s2, 2, pdE, flags, prot);
    var ptE := At(Slot(Target(f, Load(s3.mem, pdE)).word, I1(vaddr)));
    s3.(mem := s3.mem[ptE := LeafEntry(f, flags, Mask(p, f), prot)])
  }

  // ---- On a tree ----

  /** Equal but for the owners. */
  predicate SameMemory(a: Pages, b: Pages) {
    a.(own := b.own) == b
  }

  lemma StepIsGrow(a: Pages, s: Pages, k: nat, t: Addr, i: Index, flags: bv8, prot: bv8)
    requires SameMemory(a, s) && k < |s.backup| && |s.supply| >= 1 && t in s.own
    ensures var a' := LinkStep(a, k, Cell(t, i), flags, prot);
            var (s', c) := Grow(s, k, t, i, flags, prot);
            SameMemory(a', s') && Target(a.filter, Load(a'.mem, Cell(t, i))) == c
  {
    hide Cell, TableEntry, Target, Present;
  }

  lemma LeafMask(f: Word, flags: bv8, p: Word, prot: bv8)
    ensures LeafEntry(f, flags, Mask(p, f), prot) == LeafEntry(f, flags, p, prot)
  {
  }

  /** The masked address has the slot and the indices of the aliased page. */
  lemma UpdateAddresses(s: Pages, v: Word)
    requires Ready(s) && I4(v) < 64
    ensures |Path(Alias(v))| == 4
    ensures At(MapSlot4(s.root.word, Mask(v, s.filter))) == Cell(s.root, Path(Alias(v))[0])
    ensures I3(Mask(v, s.filter)) == Wide(Path(Alias(v))[1].n)
    ensures I2(Mask(v, s.filter)) == Wide(Path(Alias(v))[2].n)
    ensures I1(Mask(v, s.filter)) == Wide(Path(Alias(v))[3].n)
  {
    UpdateCell4(s.root, s.filter, v);
    UpdateIndices(s.filter, v);
  }

  lemma UpdateCell4(root: Addr, f: Word, v: Word)
    requires FilterOk(f) && I4(v) < 64
    ensures At(MapSlot4(root.word, Mask(v, f))) == Cell(root, Path(Alias(v))[0])
  {
    FilteredIndices(f, v);
    AliasSlot(root.word, Mask(v, f));
    AliasIndices(v);
    PathWords(Alias(v));
    assert MapSlot4(root.word, Mask(v, f)) == Slot(root.word, I4(Alias(v)));
  }

  lemma UpdateIndices(f: Word, v: Word)
    requires FilterOk(f) && I4(v) < 64
    ensures I3(Mask(v, f)) == Wide(Path(Alias(v))[1].n)
    ensures I2(Mask(v, f)) == Wide(Path(Alias(v))[2].n)
    ensures I1(Mask(v, f)) == Wide(Path(Alias(v))[3].n)
  {
    FilteredIndices(f, v);
    AliasIndices(v);
    PathWords(Alias(v));
  }

  lemma BuildStarts(s: Pages, q: seq<Index>, prot: bv8)
    requires CanBuild(s, prot) && |q| == 4
    ensures CanBuildFrom(s, q, 0, s.root, prot)
  {
    RootLevel(GraphIn(s), s.root, s.own);
  }

  lemma BuildEnds(s: Pages, b: Pages, q: seq<Index>, pt: Addr, p: Word, flags: bv8, prot: bv8)
    requires CanBuild(s, prot) && |q| == 4 && CanBuildFrom(s, q, 0, s.root, prot) && CanBuildFrom(b, q, 3, pt, prot)
    requires Build(s, q, 0, s.root, flags, prot) == Build(b, q, 3, pt, flags, prot)
    ensures MapAlong(s, q, p, flags, prot) == SetLeaf(b, pt, q[3], p, flags, prot)
  {
  }

  /** The update given the top-level slot and the other three indices. */
  lemma StepsAreMapAlong(s: Pages, q: seq<Index>, p: Word, flags: bv8, prot: bv8)
    requires CanBuild(s, prot) && |q| == 4
    ensures && |s.backup| == 3
            && var s1 := LinkStep(s, 0, Cell(s.root, q[0]), flags, prot);
            && var pdpt := Target(s.filter, Load(s1.mem, Cell(s.root, q[0])));
            && |s1.backup| == 3 && |s1.supply| >= 2
            && var s2 := LinkStep(s1, 1, Cell(pdpt, q[1]), flags, prot);
            && var pd := Target(s.filter, Load(s2.mem, Cell(pdpt, q[1])));
            && |s2.backup| == 3 && |s2.supply| >= 1
            && var s3 := LinkStep(s2, 2, Cell(pd, q[2]), flags, prot);
            && var pt := Target(s.filter, Load(s3.mem, Cell(pd, q[2])));
            && SameMemory(SetLeaf(s3, pt, q[3], p, flags, prot), MapAlong(s, q, p, flags, prot))
  {
    hide Cell, Target, ProtClear, Ready, Grow, LinkStep, Build, MapAlong, LeafEntry;
    LinkStepSupply();
    BuildStarts(s, q, prot);
    ThreeBackups(s);
    BuildStep(s, q, 0, s.root, flags, prot);
    StepIsGrow(s, s, 0, s.root, q[0], flags, prot);
    var s1 := LinkStep(s, 0, Cell(s.root, q[0]), flags, prot);
    var (b1, pdpt) := Grow(s, 0, s.root, q[0], flags, prot);
    ThreeBackups(b1);
    BuildStep(b1, q, 1, pdpt, flags, prot);
    StepIsGrow(s1, b1, 1, pdpt, q[1], flags, prot);
    var s2 := LinkStep(s1, 1, Cell(pdpt, q[1]), flags, prot);
    var (b2, pd) := Grow(b1, 1, pdpt, q[1], flags, prot);
    ThreeBackups(b2);
    BuildStep(b2, q, 2, pd, flags, prot);
    StepIsGrow(s2, b2, 2, pd, q[2], flags, prot);
    var (b3, pt) := Grow(b2, 2, pd, q[2], flags, prot);
    BuildEnds(s, b3, q, pt, p, flags, prot);
  }

  lemma ThreeBackups(s: Pages)
    requires Ready(s)
    ensures |s.backup| == 3
  {
  }

  /** In every state with a sound tree, clear protection bits and a top-level slot
      in the root table, the loads and stores are the update of the aliased
      page. */
  lemma UpdateIsMap(s: Pages, v: Word, p: Word, flags: bv8, prot: bv8)
    requires CanMap(s, v, prot)
    ensures |s.backup| == 3 && SameMemory(Update(s, v, p, flags, prot), MapPage(s, v, p, flags, prot))
  {
    hide Path, Alias, MapSlot4, I4, I3, I2, I1, Wide, Slot, Mask, LeafEntry, Ready, ProtClear, LinkStep, MapAlong;
    LinkStepSupply();
    UpdateAddresses(s, v);
    LeafMask(s.filter, flags, p, prot);
    StepsAreMapAlong(s, Path(Alias(v)), p, flags, prot);
  }
}
