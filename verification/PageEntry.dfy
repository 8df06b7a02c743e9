/** 64-bit paging-structure entries and the arithmetic of linear addresses
    (kernel/src/code/mem/page_map.c lines 20-92). */
module PageEntry {
  type Word = bv64

  /** Bits 12..47 of a linear address: the four 9-bit table indices. */
  const INDEX_BITS: Word := 0x0000_FFFF_FFFF_F000

  /** The mask that `page_map_init` builds from the processor's address width. */
  function Filter(maxPhy: bv8): Word
    requires maxPhy < 64
  {
    ((((1 as Word) << maxPhy) - 1) << 12)
  }

  /** What the walks need of the mask: no offset bit, every index bit, and no
      bit 63 without bit 59. */
  predicate FilterOk(f: Word) {
    f & 0xFFF == 0 && f & INDEX_BITS == INDEX_BITS && f >> 63 <= (f >> 59) & 1
  }

  /** The protection bits of an entry stay out of the address field. */
  predicate ProtClear(prot: bv8, f: Word) {
    (((prot & 0x1F) as Word) << 59) & f == 0
  }

  /** Every address argument is masked this way before use. */
  function Mask(w: Word, f: Word): Word { w & f }

  function Wide(n: bv9): Word { n as Word }

  function Present(e: Word): bool { e & 1 == 1 }

  /** Entry that points at a lower-level table. */
  function TableEntry(f: Word, flags: bv8, addr: Word, prot: bv8): Word {
    ((flags | 1) as Word) | (addr & f) | (((prot & 0x1) as Word) << 63)
  }

  /** Last-level entry. */
  function LeafEntry(f: Word, flags: bv8, addr: Word, prot: bv8): Word {
    (((flags as Word) << 1) | 1) | (addr & f) | (((prot & 0x1F) as Word) << 59)
  }

  function I4(v: Word): Word { (v & 0x0000_FF80_0000_0000) >> 39 }
  function I3(v: Word): Word { (v & 0x0000_007F_C000_0000) >> 30 }
  function I2(v: Word): Word { (v & 0x0000_0000_3FE0_0000) >> 21 }
  function I1(v: Word): Word { (v & 0x0000_0000_001F_F000) >> 12 }

  /** The page a linear address lies in. */
  function PageOf(v: Word): Word { v & INDEX_BITS }

  predicate Aligned(a: Word) { a & 0xFFF == 0 }

  /** Address of entry `i` of the table at `table`. */
  function Slot(table: Word, i: Word): Word { table + i * 8 }

  /** Address of the top-level entry `page_map_PML4` uses: line 99 scales the
      index by 8 and adds it to a `uint64_t*`, which scales it by 8 again. */
  function MapSlot4(root: Word, v: Word): Word { root + I4(v) * 8 * 8 }

  /** The page whose top-level index is eight times that of `v`. */
  function Alias(v: Word): Word {
    (v & !0x0000_FF80_0000_0000) | ((I4(v) * 8) << 39)
  }

  lemma FilterExact(maxPhy: bv8)
    requires maxPhy < 64
    ensures FilterOk(Filter(maxPhy)) <==> 36 <= maxPhy
    ensures (forall prot: bv8 :: ProtClear(prot, Filter(maxPhy))) <==> maxPhy <= 47
  {
    if maxPhy > 47 {
      assert !ProtClear(1, Filter(maxPhy));
    }
  }

  lemma SlotInjective(s: Word, i: Word, t: Word, j: Word)
    requires Aligned(s) && Aligned(t) && i < 512 && j < 512
    ensures Slot(s, i) == Slot(t, j) ==> s == t && i == j
  {
  }

  /** The address of an entry is the table's, with the index above three zero
      bits in place of the offset. */
  lemma SlotParts(t: Word, i: Word)
    requires Aligned(t) && i < 512
    ensures Slot(t, i) & !0xFFF == t && (Slot(t, i) & 0xFFF) >> 3 == i && Slot(t, i) & 7 == 0
  {
  }

  /** The top-level address is as far past the root as it is past 0 for a root at
      0, where it is 64 bytes for each index. */
  lemma MapSlotParts(root: Word, v: Word)
    ensures MapSlot4(root, v) == root + MapSlot4(0, v)
    ensures MapSlot4(0, v) >> 6 == I4(v) && MapSlot4(0, v) & 63 == 0
  {
  }

  /** The mask has `maxPhy` bits, from bit 12 on, as far as they fit. */
  lemma FilterBits(maxPhy: bv8, b: bv8)
    requires maxPhy < 64 && b < 64
    ensures (Filter(maxPhy) >> b) & 1 == 1 <==> 12 <= b && b - 12 < maxPhy
  {
  }

  /** A masked word has no bit outside the mask and its own bits inside. */
  lemma MaskParts(w: Word, f: Word)
    ensures Mask(w, f) & !f == 0 && (Mask(w, f) ^ w) & f == 0
  {
  }

  lemma IndexBounds(v: Word)
    ensures I4(v) < 512 && I3(v) < 512 && I2(v) < 512 && I1(v) < 512
  {
  }

  lemma PageFromIndices(v: Word)
    ensures PageOf(v) == (I4(v) << 39) | (I3(v) << 30) | (I2(v) << 21) | (I1(v) << 12)
  {
  }

  lemma SamePageSameIndices(v: Word, w: Word)
    requires PageOf(v) == PageOf(w)
    ensures I4(v) == I4(w) && I3(v) == I3(w) && I2(v) == I2(w) && I1(v) == I1(w)
  {
  }

  lemma PageIndices(v: Word, w: Word)
    ensures PageOf(v) == PageOf(w) <==> I4(v) == I4(w) && I3(v) == I3(w) && I2(v) == I2(w) && I1(v) == I1(w)
  {
    PageFromIndices(v);
    PageFromIndices(w);
    if PageOf(v) == PageOf(w) { SamePageSameIndices(v, w); }
  }

  lemma FilteredIndices(f: Word, v: Word)
    requires FilterOk(f)
    ensures I4(Mask(v, f)) == I4(v) && I3(Mask(v, f)) == I3(v) && I2(Mask(v, f)) == I2(v) && I1(Mask(v, f)) == I1(v)
  {
  }

  lemma LeafAddress(f: Word, flags: bv8, p: Word, prot: bv8)
    requires FilterOk(f)
    ensures Present(LeafEntry(f, flags, p, prot))
    ensures Mask(LeafEntry(f, flags, p, prot), f) == Mask(p, f) | ((((prot & 0x1F) as Word) << 59) & f)
  {
  }

  lemma LeafFlags(f: Word, flags: bv8, p: Word, prot: bv8)
    requires FilterOk(f)
    ensures (LeafEntry(f, flags, p, prot) >> 1) & 0xFF == flags as Word
  {
  }

  lemma LeafProt(f: Word, flags: bv8, p: Word, prot: bv8)
    requires f & 0xF800_0000_0000_0000 == 0
    ensures LeafEntry(f, flags, p, prot) >> 59 == (prot & 0x1F) as Word
  {
  }

  /** The frame can be read back from every entry with these protection bits
      exactly if they stay clear of the address field; the present bit and the
      eight flags always can, and the protection bits too where the field ends
      below bit 59. */
  lemma LeafRoundTrip(maxPhy: bv8, flags: bv8, prot: bv8)
    requires 36 <= maxPhy < 64
    ensures var f := Filter(maxPhy);
            && ((forall p :: Mask(LeafEntry(f, flags, p, prot), f) == Mask(p, f)) <==> ProtClear(prot, f))
            && (forall p :: Present(LeafEntry(f, flags, p, prot)) &&
                            (LeafEntry(f, flags, p, prot) >> 1) & 0xFF == flags as Word)
            && (maxPhy <= 47 ==> forall p :: LeafEntry(f, flags, p, prot) >> 59 == (prot & 0x1F) as Word)
  {
    var f := Filter(maxPhy);
    FilterExact(maxPhy);
    forall p ensures Mask(LeafEntry(f, flags, p, prot), f) == Mask(p, f) | ((((prot & 0x1F) as Word) << 59) & f) {
      LeafAddress(f, flags, p, prot);
    }
    forall p
      ensures Present(LeafEntry(f, flags, p, prot)) && (LeafEntry(f, flags, p, prot) >> 1) & 0xFF == flags as Word
    {
      LeafAddress(f, flags, p, prot);
      LeafFlags(f, flags, p, prot);
    }
    if maxPhy <= 47 {
      forall p ensures LeafEntry(f, flags, p, prot) >> 59 == (prot & 0x1F) as Word { LeafProt(f, flags, p, prot); }
    }
    assert Mask(LeafEntry(f, flags, 0, prot), f) == Mask(0, f) | ((((prot & 0x1F) as Word) << 59) & f);
  }

  lemma TableFlags(f: Word, flags: bv8, p: Word, prot: bv8)
    requires FilterOk(f)
    ensures TableEntry(f, flags, p, prot) & 0xFFF == (flags | 1) as Word
  {
  }

  lemma TableProt(f: Word, flags: bv8, p: Word, prot: bv8)
    requires f >> 63 == 0
    ensures TableEntry(f, flags, p, prot) >> 63 == (prot & 1) as Word
  {
  }

  lemma TableRest(f: Word, flags: bv8, p: Word, prot: bv8)
    ensures TableEntry(f, flags, p, prot) & !(f | 0x8000_0000_0000_00FF) == 0
  {
  }

  /** What an upper-level entry holds: the flags with the present bit in the low
      byte, the table in the address field, bit 63, and nothing else. */
  lemma TableBits(maxPhy: bv8, flags: bv8, p: Word, prot: bv8)
    requires 36 <= maxPhy <= 47
    ensures var f := Filter(maxPhy);
            var e := TableEntry(f, flags, p, prot);
            && e & 0xFFF == (flags | 1) as Word && Mask(e, f) == Mask(p, f) && e >> 63 == (prot & 1) as Word
            && e & !(f | 0x8000_0000_0000_00FF) == 0
  {
    hide TableEntry, Mask;
    FilterExact(maxPhy);
    FilterTop(maxPhy);
    TableFlags(Filter(maxPhy), flags, p, prot);
    TableDecodes(Filter(maxPhy), flags, p, prot);
    TableProt(Filter(maxPhy), flags, p, prot);
    TableRest(Filter(maxPhy), flags, p, prot);
  }

  lemma FilterTop(maxPhy: bv8)
    requires maxPhy <= 47
    ensures Filter(maxPhy) >> 63 == 0
  {
  }

  /** Nor does a page-table entry hold anything besides the present bit, the
      flags, the frame and the protection bits. */
  lemma LeafBits(f: Word, flags: bv8, p: Word, prot: bv8)
    ensures LeafEntry(f, flags, p, prot) & !(f | 0xF800_0000_0000_01FF) == 0
  {
  }

  lemma TableDecodes(f: Word, flags: bv8, p: Word, prot: bv8)
    requires FilterOk(f) && ProtClear(prot, f)
    ensures Present(TableEntry(f, flags, p, prot))
    ensures Mask(TableEntry(f, flags, p, prot), f) == Mask(p, f)
  {
  }

  lemma AliasIndices(v: Word)
    requires I4(v) < 64
    ensures I4(Alias(v)) == I4(v) * 8 && I3(Alias(v)) == I3(v) && I2(Alias(v)) == I2(v) && I1(Alias(v)) == I1(v)
  {
  }

  lemma AliasSlot(root: Word, v: Word)
    requires I4(v) < 64
    ensures MapSlot4(root, v) == Slot(root, I4(v) * 8)
  {
  }

  lemma AliasSame(v: Word)
    requires I4(v) < 64
    ensures PageOf(Alias(v)) == PageOf(v) <==> I4(v) == 0
  {
  }

  /** The top-level slot lies in the 4 KiB root table exactly below index 64. */
  lemma MapSlotInRoot(root: Word, v: Word)
    requires Aligned(root)
    ensures MapSlot4(root, v) & !0xFFF == root <==> I4(v) < 64
  {
  }

  lemma SlotOneAlias()
    ensures I4(0x80_0000_0000) == 1 && Alias(0x80_0000_0000) == 0x400_0000_0000
    ensures PageOf(0x80_0000_0000) != PageOf(0x400_0000_0000)
  {
  }
}
