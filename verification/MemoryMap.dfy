/** The E820 memory map (ACPI specification, version 6, section 15.1) and the
    share of the frame table that belongs to each of its entries
    (kernel/src/code/mem/palloc.c lines 35-44, 85, 104-108, 150, 162, 175). */
module MemoryMap {
  const RAM := 1

  datatype Region = Region(base: nat, length: nat, kind: nat)

  /** Whole pages of a region. */
  function Pages(r: Region): nat { r.length / 0x1000 }

  /** Bytes of the frame table the walks skip for a region. */
  function Share(r: Region): nat {
    if r.kind == RAM then Pages(r) / 8 else 0
  }

  /** Pages of a region that an allocation looks at: the loop counts down a
      number of bytes by eight, so it stops after one eighth of the share. */
  function Scanned(r: Region): nat { 8 * (Pages(r) / 8 / 8) }

  /** Table offset of entry `k`, in bytes. */
  function Offset(regions: seq<Region>, k: nat): nat
    requires k <= |regions|
  {
    if k == 0 then 0 else Offset(regions, k - 1) + Share(regions[k - 1])
  }

  /** Bytes of RAM in the first `k` entries. */
  function RamBelow(regions: seq<Region>, k: nat): nat
    requires k <= |regions|
  {
    if k == 0 then 0 else RamBelow(regions, k - 1) + if regions[k - 1].kind == RAM then regions[k - 1].length else 0
  }

  /** Size of the table: `mem_palloc_init` leaves the last entry out. */
  function TableSize(regions: seq<Region>): nat {
    if |regions| == 0 then 0 else RamBelow(regions, |regions| - 1) / 0x1000 / 8
  }

  /** RAM entries do not overlap, their addresses fit 64 bits, and their page
      counts fit the `int` loop counters. */
  ghost predicate WellFormed(regions: seq<Region>) {
    && (forall k :: 0 <= k < |regions| && regions[k].kind == RAM ==>
          && regions[k].base + regions[k].length < 0x1_0000_0000_0000_0000
          && regions[k].length < 0x800_0000_0000)
    && (forall i, j :: 0 <= i < j < |regions| && regions[i].kind == RAM && regions[j].kind == RAM ==>
          Apart(regions[i], regions[j]))
  }

  predicate Apart(a: Region, b: Region) {
    a.base + a.length <= b.base || b.base + b.length <= a.base
  }

  lemma {:induction false} OffsetMonotone(regions: seq<Region>, i: nat, j: nat)
    requires i <= j <= |regions|
    ensures Offset(regions, i) <= Offset(regions, j)
    decreases j - i
  {
    if i < j { OffsetMonotone(regions, i, j - 1); }
  }

  /** The shares of the entries never exceed one byte for 32 KiB of RAM. */
  lemma {:induction false} OffsetWithinRam(regions: seq<Region>, k: nat)
    requires k <= |regions|
    ensures 0x8000 * Offset(regions, k) <= RamBelow(regions, k)
  {
    if k > 0 { OffsetWithinRam(regions, k - 1); }
  }

  /** One byte for every 32 KiB, rounded down. */
  lemma TableSizeIs(regions: seq<Region>)
    requires |regions| > 0
    ensures 0x8000 * TableSize(regions) <= RamBelow(regions, |regions| - 1) < 0x8000 * (TableSize(regions) + 1)
  {
  }

  /** Address `a` lies in RAM of one of the first `k` entries. */
  predicate RamAt(regions: seq<Region>, k: nat, a: nat)
    requires k <= |regions|
  {
    exists j :: 0 <= j < k && regions[j].kind == RAM && regions[j].base <= a < regions[j].base + regions[j].length
  }

  /** The addresses of `n` bytes from `lo` on. */
  function Interval(lo: nat, n: nat): (r: set<nat>)
    ensures (forall a :: a in r <==> lo <= a < lo + n) && |r| == n
  {
    if n == 0 then {} else Interval(lo, n - 1) + {lo + n - 1}
  }

  /** The RAM counted is the number of addresses in RAM: no byte is counted twice
      and none is left out. */
  lemma {:induction false} RamBelowCounts(regions: seq<Region>, k: nat, ram: set<nat>)
    requires WellFormed(regions) && k <= |regions| && (forall a: nat :: a in ram <==> RamAt(regions, k, a))
    ensures |ram| == RamBelow(regions, k)
  {
    hide RamAt, WellFormed;
    NoRamBelow(regions);
    if k == 0 {
      assert ram == {};
    } else {
      var r := regions[k - 1];
      var last := Interval(r.base, if r.kind == RAM then r.length else 0);
      forall a: nat ensures a in ram - last <==> RamAt(regions, k - 1, a) { OneEntryMore(regions, k, a); }
      forall a | a in last ensures a in ram { OneEntryMore(regions, k, a); }
      RamBelowCounts(regions, k - 1, ram - last);
      assert ram == (ram - last) + last;
    }
  }

  lemma NoRamBelow(regions: seq<Region>)
    ensures forall a: nat :: !RamAt(regions, 0, a)
  {
  }

  /** An address lies in the last entry or in an earlier one, not in both. */
  lemma OneEntryMore(regions: seq<Region>, k: nat, a: nat)
    requires WellFormed(regions) && 1 <= k <= |regions|
    ensures var r := regions[k - 1];
            var here := r.kind == RAM && r.base <= a < r.base + r.length;
            && (RamAt(regions, k, a) <==> here || RamAt(regions, k - 1, a))
            && !(here && RamAt(regions, k - 1, a))
  {
    var r := regions[k - 1];
    if j :| 0 <= j < k - 1 && regions[j].kind == RAM && regions[j].base <= a < regions[j].base + regions[j].length {
      if r.kind == RAM { assert Apart(regions[j], r); }
    }
  }

  /** The three walks step alike: `entry_size / 0x8000` at line 85 is
      `map_entry_size / 8` at lines 150 and 175. */
  lemma StepsAgree(r: Region)
    requires r.kind == RAM
    ensures r.length / 0x8000 == Share(r)
  {
  }

  /** All shares fit the table exactly if the last entry's share fits what the
      rounding of the others leaves; a last entry that is not RAM always does. */
  lemma SharesFitIff(regions: seq<Region>)
    requires |regions| > 0
    ensures var last := regions[|regions| - 1]; var used := Offset(regions, |regions| - 1);
            && used <= TableSize(regions)
            && (Offset(regions, |regions|) <= TableSize(regions) <==>
                last.kind != RAM || last.length / 0x8000 <= TableSize(regions) - used)
  {
    OffsetWithinRam(regions, |regions| - 1);
  }

  /** Two RAM entries of 32 KiB: the second has a share, the table has not. */
  lemma LastRamEntryOverruns()
    ensures var regions := [Region(0, 0x8000, RAM), Region(0x8000, 0x8000, RAM)];
            WellFormed(regions) && TableSize(regions) == 1 && Offset(regions, 2) == 2
  {
    var regions := [Region(0, 0x8000, RAM), Region(0x8000, 0x8000, RAM)];
    assert RamBelow(regions, 0) == 0 && Offset(regions, 0) == 0;
    assert RamBelow(regions, 1) == 0x8000 && Offset(regions, 1) == 1;
  }

  /** Shares of different entries are disjoint stretches of table bits. */
  lemma SharesDisjoint(regions: seq<Region>, i: nat, p: nat, j: nat, q: nat)
    requires i < |regions| && j < |regions| && p < 8 * Share(regions[i]) && q < 8 * Share(regions[j])
    ensures 8 * Offset(regions, i) + p == 8 * Offset(regions, j) + q <==> i == j && p == q
  {
    if i < j { OffsetMonotone(regions, i + 1, j); }
    if j < i { OffsetMonotone(regions, j + 1, i); }
  }
}
