/** What every sequence of allocations and matching frees keeps: no page is
    handed out twice, none belongs to the kernel, and none is lost
    (kernel/src/code/mem/palloc.c lines 56-178). */
module FrameRuns {
  import opened Bitmap
  import opened MemoryMap
  import opened FrameTable

  /** Pages `first..first+count` of entry `region`. */
  datatype Range = Range(region: nat, first: nat, count: nat)

  ghost predicate InRegions(regions: seq<Region>, r: Range) {
    r.region < |regions| && regions[r.region].kind == RAM && r.first + r.count <= Pages(regions[r.region])
  }

  /** ... all of which have a bit of their own. */
  ghost predicate Tracked(regions: seq<Region>, r: Range) {
    && r.region < |regions| && regions[r.region].kind == RAM
    && r.count >= 1 && r.first + r.count <= 8 * Share(regions[r.region])
  }

  function BitOf(regions: seq<Region>, r: Range): nat
    requires r.region < |regions|
  {
    8 * Offset(regions, r.region) + r.first
  }

  function Low(regions: seq<Region>, r: Range): nat
    requires r.region < |regions|
  {
    AddressOf(regions, r.region, r.first)
  }

  function High(regions: seq<Region>, r: Range): nat
    requires r.region < |regions|
  {
    AddressOf(regions, r.region, r.first + r.count)
  }

  /** A page range starts whole pages into its entry, as many as it says, and ends
      in it. */
  lemma RangeInEntry(regions: seq<Region>, r: Range)
    requires InRegions(regions, r)
    ensures var e := regions[r.region];
            && e.base <= Low(regions, r) && High(regions, r) <= e.base + e.length
            && (Low(regions, r) - e.base) / 0x1000 == r.first && (Low(regions, r) - e.base) % 0x1000 == 0
            && High(regions, r) - Low(regions, r) == 0x1000 * r.count
  {
  }

  /** The byte ranges of memory two page ranges stand for do not meet. */
  ghost predicate ApartInMemory(regions: seq<Region>, a: Range, b: Range)
    requires a.region < |regions| && b.region < |regions|
  {
    High(regions, a) <= Low(regions, b) || High(regions, b) <= Low(regions, a)
  }

  ghost predicate ApartInTable(regions: seq<Region>, a: Range, b: Range)
    requires a.region < |regions| && b.region < |regions|
  {
    BitOf(regions, a) + a.count <= BitOf(regions, b) || BitOf(regions, b) + b.count <= BitOf(regions, a)
  }

  /** Ranges that share no bit share no memory: `a` has bits for all its pages,
      `b` may reach into the pages at the end of its entry that have none. */
  lemma TableApartIsMemoryApart(regions: seq<Region>, a: Range, b: Range)
    requires WellFormed(regions) && Tracked(regions, a) && InRegions(regions, b) && b.count >= 1
    requires ApartInTable(regions, a, b)
    ensures ApartInMemory(regions, a, b)
  {
    var ra, rb := regions[a.region], regions[b.region];
    assert High(regions, a) <= ra.base + ra.length && High(regions, b) <= rb.base + rb.length;
    if a.region < b.region {
      assert Apart(ra, rb);
    } else if b.region < a.region {
      assert Apart(rb, ra);
    }
  }

  // ---- Free undoes alloc ----

  /** The address of a tracked range leads the free walk back to its entry. */
  lemma FindsOwnRegion(regions: seq<Region>, r: Range)
    requires WellFormed(regions) && Tracked(regions, r)
    ensures FindRegion(regions, Low(regions, r), r.count, 0) == r.region
    ensures FreeOffset(regions, Low(regions, r), r.count) == BitOf(regions, r)
  {
    var addr := Low(regions, r);
    assert Contains(regions[r.region], addr, r.count);
    forall j | 0 <= j < r.region ensures !Contains(regions[j], addr, r.count) {
      if regions[j].kind == RAM { assert Apart(regions[j], regions[r.region]); }
    }
    assert (addr - regions[r.region].base) / 0x1000 == r.first;
  }

  /** An allocation followed by the free of what it returned restores the table
      byte for byte. */
  lemma AllocThenFree(regions: seq<Region>, t: Bytes, t1: Bytes, t2: Bytes, n: nat, addr: nat, k: nat, s: nat,
                      code: nat)
    requires WellFormed(regions)
    requires AllocStep(regions, t, t1, n, 0, addr, k, s)
    requires FreeStep(regions, t1, t2, addr, n, code)
    ensures code == 0 && t2 == t
  {
    var r := Range(k, s, n);
    FindsOwnRegion(regions, r);
    OverwriteBack(t, t1, t2, BitOf(regions, r), n, false);
  }

  // ---- The set of free pages ----

  /** Page `i` of entry `j` has a bit and is marked free. */
  ghost predicate PageFree(regions: seq<Region>, t: Bytes, j: nat, i: nat)
    requires j < |regions|
  {
    8 * Offset(regions, j) + i < 8 * |t| && Bit(t, 8 * Offset(regions, j) + i)
  }

  /** Entry `j` has a page `i` with a bit of its own. */
  predicate HasBit(regions: seq<Region>, j: nat, i: nat) {
    j < |regions| && i < 8 * Share(regions[j])
  }

  /** A successful allocation takes its pages out of the set and no other. */
  lemma AllocRefinesFreeSet(regions: seq<Region>, t: Bytes, t': Bytes, n: nat, addr: nat, k: nat, s: nat, j: nat,
                            i: nat)
    requires AllocStep(regions, t, t', n, 0, addr, k, s) && HasBit(regions, j, i)
    ensures PageFree(regions, t', j, i) <==> PageFree(regions, t, j, i) && !(j == k && s <= i < s + n)
  {
    var bit := 8 * Offset(regions, j) + i;
    if 8 * Offset(regions, k) + s <= bit < 8 * Offset(regions, k) + s + n {
      SharesDisjoint(regions, j, i, k, bit - 8 * Offset(regions, k));
    }
  }

  /** The page of its entry at which a freed range starts. */
  function FreePage(regions: seq<Region>, addr: nat, n: nat): nat
    requires FindRegion(regions, addr, n, 0) < |regions|
  {
    (addr - regions[FindRegion(regions, addr, n, 0)].base) / 0x1000
  }

  /** The free of a range that ends past its entry's share, and starts before the
      end of all shares, when some later entry has one. */
  predicate Spills(regions: seq<Region>, addr: nat, n: nat)
    requires FindRegion(regions, addr, n, 0) < |regions|
  {
    var k := FindRegion(regions, addr, n, 0);
    && n >= 1
    && FreePage(regions, addr, n) + n > 8 * (Pages(regions[k]) / 8)
    && FreeOffset(regions, addr, n) < 8 * Offset(regions, |regions|)
    && Offset(regions, k + 1) < Offset(regions, |regions|)
  }

  /** The free sets the bit of page `i` of entry `j`. */
  predicate Sets(regions: seq<Region>, addr: nat, n: nat, j: nat, i: nat)
    requires FindRegion(regions, addr, n, 0) < |regions| && j < |regions|
  {
    FreeOffset(regions, addr, n) <= 8 * Offset(regions, j) + i < FreeOffset(regions, addr, n) + n
  }

  /** Every bit of the shares belongs to a page of an entry. */
  lemma {:induction false} BitOwner(regions: seq<Region>, bit: nat, k: nat) returns (j: nat, i: nat)
    requires k <= |regions| && bit < 8 * Offset(regions, k)
    ensures HasBit(regions, j, i) && 8 * Offset(regions, j) + i == bit
    decreases k
  {
    if bit < 8 * Offset(regions, k - 1) {
      j, i := BitOwner(regions, bit, k - 1);
    } else {
      j, i := k - 1, bit - 8 * Offset(regions, k - 1);
    }
  }

  /** The first bit set past the entry's share belongs to a later entry. */
  lemma SpillReaches(regions: seq<Region>, addr: nat, n: nat) returns (j: nat, i: nat)
    requires FindRegion(regions, addr, n, 0) < |regions| && Spills(regions, addr, n)
    ensures HasBit(regions, j, i) && j != FindRegion(regions, addr, n, 0) && Sets(regions, addr, n, j, i)
  {
    var k := FindRegion(regions, addr, n, 0);
    var first, share := FreeOffset(regions, addr, n), 8 * Offset(regions, k + 1);
    j, i := BitOwner(regions, if first < share then share else first, |regions|);
    if j <= k { OffsetMonotone(regions, j + 1, k + 1); }
  }

  /** A free sets bits of pages of other entries exactly if it spills. */
  lemma FreeReachesOtherEntryIff(regions: seq<Region>, addr: nat, n: nat)
    requires FindRegion(regions, addr, n, 0) < |regions|
    ensures Spills(regions, addr, n) <==>
            exists j, i :: HasBit(regions, j, i) && j != FindRegion(regions, addr, n, 0) && Sets(regions, addr, n, j, i)
  {
    var k := FindRegion(regions, addr, n, 0);
    if Spills(regions, addr, n) {
      var j, i := SpillReaches(regions, addr, n);
    }
    forall j, i | HasBit(regions, j, i) && j != k && Sets(regions, addr, n, j, i) ensures Spills(regions, addr, n) {
      OffsetMonotone(regions, j + 1, |regions|);
      if j < k {
        OffsetMonotone(regions, j + 1, k);
      } else {
        OffsetMonotone(regions, k + 1, j);
      }
    }
  }

  /** A free that does not spill adds its pages to the set and no other. */
  lemma FreeRefinesFreeSet(regions: seq<Region>, t: Bytes, t': Bytes, addr: nat, n: nat, j: nat, i: nat)
    requires FindRegion(regions, addr, n, 0) < |regions| && !Spills(regions, addr, n)
    requires FreeInBounds(regions, t, addr, n) && FreeStep(regions, t, t', addr, n, 0) && HasBit(regions, j, i)
    ensures var k, page := FindRegion(regions, addr, n, 0), FreePage(regions, addr, n);
            PageFree(regions, t', j, i) <==> PageFree(regions, t, j, i) || (j == k && page <= i < page + n)
  {
    FreeReachesOtherEntryIff(regions, addr, n);
    assert Sets(regions, addr, n, j, i) ==> j == FindRegion(regions, addr, n, 0);
  }

  /** One that spills marks a page of another entry free. */
  lemma SpillMarksOtherPage(regions: seq<Region>, t: Bytes, t': Bytes, addr: nat, n: nat) returns (j: nat, i: nat)
    requires FindRegion(regions, addr, n, 0) < |regions| && Spills(regions, addr, n)
    requires FreeInBounds(regions, t, addr, n) && FreeStep(regions, t, t', addr, n, 0)
    ensures HasBit(regions, j, i) && j != FindRegion(regions, addr, n, 0) && PageFree(regions, t', j, i)
  {
    j, i := SpillReaches(regions, addr, n);
  }

  /** A range that does not pass 2^64 spills exactly if it ends among its entry's
      pages without a bit and a later entry has pages with one. */
  lemma SpillsInsideIff(regions: seq<Region>, addr: nat, n: nat)
    requires n >= 1 && addr + n * 0x1000 < U64 && FindRegion(regions, addr, n, 0) < |regions|
    ensures var k := FindRegion(regions, addr, n, 0);
            Spills(regions, addr, n) <==>
            && FreePage(regions, addr, n) + n > 8 * (Pages(regions[k]) / 8)
            && exists j :: k < j < |regions| && Share(regions[j]) > 0
  {
    var k := FindRegion(regions, addr, n, 0);
    assert FreePage(regions, addr, n) + n <= Pages(regions[k]);
    LaterShareIff(regions, k + 1);
  }

  lemma {:induction false} LaterShareIff(regions: seq<Region>, k: nat)
    requires k <= |regions|
    ensures Offset(regions, k) < Offset(regions, |regions|) <==> exists j :: k <= j < |regions| && Share(regions[j]) > 0
    decreases |regions| - k
  {
    if k < |regions| {
      LaterShareIff(regions, k + 1);
      OffsetMonotone(regions, k + 1, |regions|);
      if Offset(regions, k) < Offset(regions, |regions|) && Share(regions[k]) == 0 {
        var j :| k + 1 <= j < |regions| && Share(regions[j]) > 0;
      }
    }
  }

  /** A range that does not pass 2^64 is accepted exactly if it lies in the whole
      pages of some RAM entry. */
  lemma FreeFindsIff(regions: seq<Region>, addr: nat, n: nat)
    requires addr + n * 0x1000 < U64
    ensures FindRegion(regions, addr, n, 0) < |regions| <==>
            exists r :: r in regions && r.kind == RAM &&
                        r.base <= addr && addr + n * 0x1000 <= r.base + 0x1000 * (r.length / 0x1000)
  {
    if FindRegion(regions, addr, n, 0) < |regions| {
      assert Contains(regions[FindRegion(regions, addr, n, 0)], addr, n);
    }
    forall r | r in regions && r.kind == RAM &&
               r.base <= addr && addr + n * 0x1000 <= r.base + 0x1000 * (r.length / 0x1000)
      ensures FindRegion(regions, addr, n, 0) < |regions|
    {
      assert Contains(r, addr, n);
    }
  }

  /** A range that a free accepts lies in the entry it is found in exactly if its
      end does not pass 2^64. */
  lemma AcceptedRangeInsideIff(regions: seq<Region>, addr: nat, n: nat)
    requires WellFormed(regions) && FindRegion(regions, addr, n, 0) < |regions|
    ensures var r := regions[FindRegion(regions, addr, n, 0)];
            r.base <= addr && addr + n * 0x1000 <= r.base + 0x1000 * Pages(r) <==> addr + n * 0x1000 < U64
  {
    var r := regions[FindRegion(regions, addr, n, 0)];
    assert Contains(r, addr, n);
    if addr + n * 0x1000 < U64 { assert (addr + n * 0x1000) % U64 == addr + n * 0x1000; }
  }

  /** The number that an `int` variable holds after the assignment of `x`. */
  function AsInt(x: nat): int {
    var low := x % 0x1_0000_0000;
    if low < 0x8000_0000 then low else low - 0x1_0000_0000
  }

  /** The free of the last page below 2^64 is accepted in low memory, and the byte
      index the loop computes is -1: it sets a bit in the byte before the share. */
  lemma WrappedRangeIsAccepted()
    ensures var regions := [Region(0, 0x9F000, RAM), Region(0x9F000, 0x1000, 2)];
            && WellFormed(regions) && FindRegion(regions, 0xFFFF_FFFF_FFFF_F000, 1, 0) == 0
            && 0xFFFF_FFFF_FFFF_F000 + 0x1000 > regions[0].base + regions[0].length
            && AsInt(FreePage(regions, 0xFFFF_FFFF_FFFF_F000, 1) / 8) == -1
  {
    var regions := [Region(0, 0x9F000, RAM), Region(0x9F000, 0x1000, 2)];
    assert Contains(regions[0], 0xFFFF_FFFF_FFFF_F000, 1);
  }

  /** Nine pages, then eight, then a region that is not RAM: freeing page 8 of the
      first entry marks page 0 of the second free. */
  lemma FreeOfUntrackedPage(t: Bytes, t': Bytes, code: nat)
    requires var regions := [Region(0, 0x9000, RAM), Region(0x10000, 0x8000, RAM), Region(0x18000, 0x1000, 2)];
             |t| == 2 && !PageFree(regions, t, 1, 0) && FreeStep(regions, t, t', 0x8000, 1, code)
    ensures var regions := [Region(0, 0x9000, RAM), Region(0x10000, 0x8000, RAM), Region(0x18000, 0x1000, 2)];
            && WellFormed(regions) && Offset(regions, 3) == TableSize(regions) == 2
            && FreeInBounds(regions, t, 0x8000, 1)
            && code == 0 && PageFree(regions, t', 1, 0)
  {
    var regions := [Region(0, 0x9000, RAM), Region(0x10000, 0x8000, RAM), Region(0x18000, 0x1000, 2)];
    assert Offset(regions, 0) == 0 && Offset(regions, 1) == 1 && Offset(regions, 2) == 2 && Offset(regions, 3) == 2;
    assert RamBelow(regions, 0) == 0 && RamBelow(regions, 1) == 0x9000 && RamBelow(regions, 2) == 0x11000;
    assert Contains(regions[0], 0x8000, 1);
    assert FindRegion(regions, 0x8000, 1, 0) == 0 && FreeOffset(regions, 0x8000, 1) == 8;
  }

  // ---- The scan misses most pages ----

  /** An entry of 63 pages, all of whose 56 bits are set, and a call for one page
      fails. */
  lemma SixtyThreeFreePages(t: Bytes, t': Bytes, code: nat, addr: nat, k: nat, s: nat)
    requires |t| == 7 && AllSet(t, 0, 56)
    requires AllocStep([Region(0, 0x3F000, RAM), Region(0x3F000, 0x1000, 2)], t, t', 1, code, addr, k, s)
    ensures var regions := [Region(0, 0x3F000, RAM), Region(0x3F000, 0x1000, 2)];
            && WellFormed(regions) && Offset(regions, 2) == TableSize(regions) == 7
            && (forall i: nat :: i < 56 ==> PageFree(regions, t, 0, i))
            && code == 1
  {
    var regions := [Region(0, 0x3F000, RAM), Region(0x3F000, 0x1000, 2)];
    assert Offset(regions, 0) == 0 && Offset(regions, 1) == 7 && Offset(regions, 2) == 7;
    assert RamBelow(regions, 0) == 0 && RamBelow(regions, 1) == 0x3F000;
    FoundIff(regions, t, t', 1, code, addr, k, s);
  }

  /** Pages `p..p+n` of entry `j` are free and lie in the first eighth of the
      entry's share. */
  ghost predicate FreeEarlyRun(regions: seq<Region>, t: Bytes, n: nat, j: nat, p: nat) {
    && j < |regions| && regions[j].kind == RAM
    && p + n <= 8 * (Pages(regions[j]) / 64)
    && forall i: nat :: p <= i < p + n ==> PageFree(regions, t, j, i)
  }

  /** A call succeeds exactly if it asks for at least one page and some entry
      has that many free pages in a row early enough. */
  lemma FoundIff(regions: seq<Region>, t: Bytes, t': Bytes, n: nat, code: nat, addr: nat, k: nat, s: nat)
    requires AllocStep(regions, t, t', n, code, addr, k, s)
    ensures code == 0 <==> n >= 1 && exists j, p :: FreeEarlyRun(regions, t, n, j, p)
  {
    hide FreeEarlyRun, Fits, Overwritten;
    if code == 0 {
      FitIsEarlyRun(regions, t, n, k, s);
    } else if n >= 1 {
      forall j: nat, p: nat ensures !FreeEarlyRun(regions, t, n, j, p) {
        if FreeEarlyRun(regions, t, n, j, p) { EarlyRunFits(regions, t, n, j, p); }
      }
    }
  }

  lemma FitIsEarlyRun(regions: seq<Region>, t: Bytes, n: nat, j: nat, p: nat)
    requires j < |regions| && Fits(regions, t, n, j, p)
    ensures n >= 1 && FreeEarlyRun(regions, t, n, j, p)
  {
  }

  lemma EarlyRunFits(regions: seq<Region>, t: Bytes, n: nat, j: nat, p: nat)
    requires FreeEarlyRun(regions, t, n, j, p) && n >= 1
    ensures j < |regions| && Fits(regions, t, n, j, p)
  {
    var base := 8 * Offset(regions, j);
    assert PageFree(regions, t, j, p + n - 1);
    forall i: nat | base + p <= i < base + p + n ensures Bit(t, i) {
      assert PageFree(regions, t, j, i - base);
    }
  }

  // ---- Runs ----

  /** The table, the ranges handed out and not yet freed, and the kernel. */
  datatype State = State(table: Bytes, live: seq<Range>, kernel: Range)

  datatype Op = Alloc(n: nat, code: nat, addr: nat, k: nat, s: nat) | Free(i: nat, code: nat)

  ghost predicate Step(regions: seq<Region>, a: State, op: Op, b: State) {
    b.kernel == a.kernel &&
    match op
    case Alloc(n, code, addr, k, s) =>
      && AllocStep(regions, a.table, b.table, n, code, addr, k, s)
      && b.live == if code == 0 then a.live + [Range(k, s, n)] else a.live
    case Free(i, code) =>
      && i < |a.live| && a.live[i].region < |regions|
      && FreeStep(regions, a.table, b.table, Low(regions, a.live[i]), a.live[i].count, code)
      && b.live == a.live[..i] + a.live[i + 1..]
  }

  /** `states` are the states a run of `ops` goes through. */
  ghost predicate Execution(regions: seq<Region>, states: seq<State>, ops: seq<Op>)
    decreases |ops|
  {
    var n := |ops|;
    && |states| == n + 1
    && (n > 0 ==> Step(regions, states[n - 1], ops[n - 1], states[n]) && Execution(regions, states[..n], ops[..n - 1]))
  }

  /** Live ranges are tracked and marked taken, and share no bit with each other
      or with the kernel, whose bits are marked taken too. */
  ghost predicate Inv(regions: seq<Region>, st: State) {
    && WellFormed(regions)
    && InRegions(regions, st.kernel) && st.kernel.count >= 1
    && AllClear(st.table, BitOf(regions, st.kernel), st.kernel.count)
    && (forall i :: 0 <= i < |st.live| ==>
          && Tracked(regions, st.live[i])
          && AllClear(st.table, BitOf(regions, st.live[i]), st.live[i].count)
          && ApartInTable(regions, st.live[i], st.kernel))
    && (forall i, j :: 0 <= i < j < |st.live| ==> ApartInTable(regions, st.live[i], st.live[j]))
  }

  /** A stretch of set bits and a stretch of clear bits do not meet. */
  lemma SetAndClearApart(t: Bytes, a: nat, n: nat, b: nat, m: nat)
    requires AllSet(t, a, n) && AllClear(t, b, m) && n >= 1 && m >= 1
    ensures a + n <= b || b + m <= a
  {
    var i := if a < b then b else a;
    assert a <= i < a + n ==> Bit(t, i);
    assert b <= i < b + m ==> !Bit(t, i);
  }

  lemma ClearSurvives(t: Bytes, t': Bytes, lo: nat, n: nat, v: bool, b: nat, m: nat)
    requires Overwritten(t, t', lo, n, v) && AllClear(t, b, m)
    requires !v || lo + n <= b || b + m <= lo
    ensures AllClear(t', b, m)
  {
  }

  lemma AllocKeepsInv(regions: seq<Region>, a: State, b: State, n: nat, code: nat, addr: nat, k: nat, s: nat)
    requires Inv(regions, a) && Step(regions, a, Op.Alloc(n, code, addr, k, s), b)
    ensures Inv(regions, b)
  {
    if code == 0 {
      var r := Range(k, s, n);
      var lo := BitOf(regions, r);
      assert Tracked(regions, r);
      SetAndClearApart(a.table, lo, n, BitOf(regions, a.kernel), a.kernel.count);
      ClearSurvives(a.table, b.table, lo, n, false, BitOf(regions, a.kernel), a.kernel.count);
      forall i | 0 <= i < |a.live|
        ensures ApartInTable(regions, a.live[i], r)
        ensures AllClear(b.table, BitOf(regions, a.live[i]), a.live[i].count)
      {
        SetAndClearApart(a.table, lo, n, BitOf(regions, a.live[i]), a.live[i].count);
        ClearSurvives(a.table, b.table, lo, n, false, BitOf(regions, a.live[i]), a.live[i].count);
      }
    }
  }

  lemma FreeKeepsInv(regions: seq<Region>, a: State, b: State, i: nat, code: nat)
    requires Inv(regions, a) && Step(regions, a, Op.Free(i, code), b)
    ensures Inv(regions, b) && code == 0
  {
    var r := a.live[i];
    var lo := BitOf(regions, r);
    FindsOwnRegion(regions, r);
    ClearSurvives(a.table, b.table, lo, r.count, true, BitOf(regions, a.kernel), a.kernel.count);
    forall j | 0 <= j < |a.live| && j != i
      ensures AllClear(b.table, BitOf(regions, a.live[j]), a.live[j].count)
    {
      assert if i < j then ApartInTable(regions, a.live[i], a.live[j]) else ApartInTable(regions, a.live[j], a.live[i]);
      ClearSurvives(a.table, b.table, lo, r.count, true, BitOf(regions, a.live[j]), a.live[j].count);
    }
    forall j | 0 <= j < |b.live| ensures b.live[j] == a.live[if j < i then j else j + 1] {}
  }

  lemma StepKeepsInv(regions: seq<Region>, a: State, op: Op, b: State)
    requires Inv(regions, a) && Step(regions, a, op, b)
    ensures Inv(regions, b) && b.kernel == a.kernel
  {
    match op {
      case Alloc(n, code, addr, k, s) => AllocKeepsInv(regions, a, b, n, code, addr, k, s);
      case Free(i, code) => FreeKeepsInv(regions, a, b, i, code);
    }
  }

  lemma {:induction false} RunKeepsInv(regions: seq<Region>, states: seq<State>, ops: seq<Op>)
    requires Execution(regions, states, ops) && Inv(regions, states[0])
    ensures Inv(regions, states[|ops|]) && states[|ops|].kernel == states[0].kernel
    decreases |ops|
  {
    hide Inv, Step;
    var n := |ops|;
    if n > 0 {
      RunKeepsInv(regions, states[..n], ops[..n - 1]);
      StepKeepsInv(regions, states[n - 1], ops[n - 1], states[n]);
    }
  }

  /** Ranges handed out lie in single RAM entries, and in memory they meet
      neither each other nor the kernel. */
  ghost predicate Safe(regions: seq<Region>, st: State) {
    && st.kernel.region < |regions|
    && (forall i :: 0 <= i < |st.live| ==>
          Tracked(regions, st.live[i]) && ApartInMemory(regions, st.live[i], st.kernel))
    && (forall i, j :: 0 <= i < j < |st.live| ==> ApartInMemory(regions, st.live[i], st.live[j]))
  }

  lemma InvIsSafe(regions: seq<Region>, st: State)
    requires Inv(regions, st)
    ensures Safe(regions, st)
  {
    forall i | 0 <= i < |st.live| ensures ApartInMemory(regions, st.live[i], st.kernel) {
      TableApartIsMemoryApart(regions, st.live[i], st.kernel);
    }
    forall i, j | 0 <= i < j < |st.live| ensures ApartInMemory(regions, st.live[i], st.live[j]) {
      TableApartIsMemoryApart(regions, st.live[i], st.live[j]);
    }
  }

  /** The state `mem_palloc_init` leaves: all bits of the table set but the
      kernel's. */
  ghost predicate Initial(regions: seq<Region>, st: State) {
    && WellFormed(regions) && InRegions(regions, st.kernel) && st.kernel.count >= 1
    && st.live == []
    && exists full: Bytes ::
         && AllSet(full, 0, 8 * TableSize(regions))
         && Overwritten(full, st.table, BitOf(regions, st.kernel), st.kernel.count, false)
  }

  /** `mem_palloc_init` for a kernel in contiguous memory from `first` to `end`
      leaves such a state, and reserves exactly those bytes if and only if the
      kernel starts a whole number of pages into its entry. */
  lemma ReservedIsInitial(regions: seq<Region>, full: Bytes, t: Bytes, first: nat, end: nat, n: nat)
    requires WellFormed(regions) && KernelRegion(regions, first, end, 0) < |regions|
    requires n >= 1 && end == first + n * 0x1000
    requires AllSet(full, 0, 8 * TableSize(regions))
    requires Overwritten(full, t, KernelOffset(regions, first, end), n, false)
    ensures var k := KernelRegion(regions, first, end, 0);
            var kernel := Range(k, (first - regions[k].base) / 0x1000, n);
            && Initial(regions, State(t, [], kernel))
            && (Low(regions, kernel) == first && High(regions, kernel) == end <==>
                (first - regions[k].base) % 0x1000 == 0)
  {
  }

  /** A range handed out and not yet freed meets what `mem_pfree` needs. */
  lemma LiveCanBeFreed(regions: seq<Region>, t: Bytes, r: Range)
    requires WellFormed(regions) && Offset(regions, |regions|) <= |t| && Tracked(regions, r)
    ensures FindRegion(regions, Low(regions, r), r.count, 0) == r.region
    ensures FreeInBounds(regions, t, Low(regions, r), r.count)
    ensures Low(regions, r) + r.count * 0x1000 < U64
    ensures !Spills(regions, Low(regions, r), r.count)
  {
    FindsOwnRegion(regions, r);
    OffsetMonotone(regions, r.region + 1, |regions|);
  }

  /** Every interleaving of allocations and matching frees after the start is
      safe in the state it ends in; each prefix of a run is a run. */
  lemma RunsAreSafe(regions: seq<Region>, states: seq<State>, ops: seq<Op>)
    requires Execution(regions, states, ops) && Initial(regions, states[0])
    ensures Safe(regions, states[|ops|]) && states[|ops|].kernel == states[0].kernel
  {
    assert Inv(regions, states[0]);
    RunKeepsInv(regions, states, ops);
    InvIsSafe(regions, states[|ops|]);
  }

  // ---- Conservation ----

  function Total(live: seq<Range>): nat {
    if live == [] then 0 else Total(live[..|live| - 1]) + live[|live| - 1].count
  }

  lemma {:induction false} TotalWithout(live: seq<Range>, i: nat)
    requires i < |live|
    ensures Total(live[..i] + live[i + 1..]) + live[i].count == Total(live)
  {
    var n := |live| - 1;
    if i == n {
      assert live[..i] + live[i + 1..] == live[..n];
    } else {
      TotalWithout(live[..n], i);
      var rest := live[..i] + live[i + 1..];
      assert rest[..|rest| - 1] == live[..n][..i] + live[..n][i + 1..];
    }
  }

  lemma AllocConserves(regions: seq<Region>, a: State, b: State, n: nat, code: nat, addr: nat, k: nat, s: nat)
    requires Inv(regions, a) && Step(regions, a, Op.Alloc(n, code, addr, k, s), b)
    ensures Count(b.table) + Total(b.live) == Count(a.table) + Total(a.live)
  {
    if code == 0 {
      CountAfter(a.table, b.table, BitOf(regions, Range(k, s, n)), n, false);
      assert b.live[..|a.live|] == a.live;
    }
  }

  lemma FreeConserves(regions: seq<Region>, a: State, b: State, i: nat, code: nat)
    requires Inv(regions, a) && Step(regions, a, Op.Free(i, code), b)
    ensures Count(b.table) + Total(b.live) == Count(a.table) + Total(a.live)
  {
    var r := a.live[i];
    FindsOwnRegion(regions, r);
    CountAfter(a.table, b.table, BitOf(regions, r), r.count, true);
    TotalWithout(a.live, i);
  }

  lemma StepConserves(regions: seq<Region>, a: State, op: Op, b: State)
    requires Inv(regions, a) && Step(regions, a, op, b)
    ensures Count(b.table) + Total(b.live) == Count(a.table) + Total(a.live)
  {
    match op {
      case Alloc(n, code, addr, k, s) => AllocConserves(regions, a, b, n, code, addr, k, s);
      case Free(i, code) => FreeConserves(regions, a, b, i, code);
    }
  }

  /** Free bits plus pages handed out stay constant over every run: an
      allocation takes exactly its pages, a free gives exactly those back. */
  lemma {:induction false} PagesConserved(regions: seq<Region>, states: seq<State>, ops: seq<Op>)
    requires Execution(regions, states, ops) && Inv(regions, states[0])
    ensures Count(states[|ops|].table) + Total(states[|ops|].live) == Count(states[0].table) + Total(states[0].live)
    decreases |ops|
  {
    hide Inv, Step, Count, Total;
    var n := |ops|;
    if n > 0 {
      PagesConserved(regions, states[..n], ops[..n - 1]);
      RunKeepsInv(regions, states[..n], ops[..n - 1]);
      StepConserves(regions, states[n - 1], ops[n - 1], states[n]);
    }
  }
}
