/** `mem_alloc` and `mem_free` as steps on the record list, exactly when each
    keeps the heap sound, and what every run keeps
    (kernel/src/code/mem/alloc.c lines 48-121). */
module HeapRuns {
  import opened HeapList

  /** Address of the record of a block inserted into a gap.  Line 65 adds `size`
      to a pointer to 24-byte records, so `scale` is 24 in the code; the fit
      check before it counts bytes, as if `scale` were 1. */
  function RecordAt(start: nat, size: nat, scale: nat): nat { start + scale * size }

  const SCALE := 24

  /** The memory after an allocation that found gap `k`, or appended. */
  function AllocMem(m: Tails, nodes: seq<nat>, size: nat, align: nat, k: nat, scale: nat): Tails
    requires 1 <= k <= |nodes|
  {
    var start := Place(nodes[k - 1], align);
    if k < |nodes| then Inserted(m, nodes[k], RecordAt(start, size, scale), start)
    else Appended(m, nodes[k - 1], start + size, start)
  }

  function AllocNodes(nodes: seq<nat>, size: nat, align: nat, k: nat, scale: nat): seq<nat>
    requires 1 <= k <= |nodes|
  {
    var start := Place(nodes[k - 1], align);
    if k < |nodes| then With(nodes, k, RecordAt(start, size, scale)) else nodes + [start + size]
  }

  /** The record of a block that goes into gap `k` ends before the next block. */
  predicate RecordFits(m: Tails, nodes: seq<nat>, size: nat, align: nat, k: nat, scale: nat)
    requires 1 <= k <= |nodes|
  {
    k < |nodes| ==> scale * size + TAIL <= At(m, nodes[k]).vaddr - Place(nodes[k - 1], align)
  }

  lemma AllocKeepsInv(m: Tails, nodes: seq<nat>, size: nat, align: nat, k: nat, scale: nat)
    requires Inv(m, nodes) && FirstGap(m, nodes, size, align, k) && RecordFits(m, nodes, size, align, k, scale)
    ensures Inv(AllocMem(m, nodes, size, align, k, scale), AllocNodes(nodes, size, align, k, scale))
    ensures AllocNodes(nodes, size, align, k, scale)[0] == nodes[0]
  {
    PlaceIsAligned(nodes[k - 1], align);
    var start := Place(nodes[k - 1], align);
    if k < |nodes| {
      InsertKeepsInv(m, nodes, k, RecordAt(start, size, scale), start);
    } else {
      AppendKeepsInv(m, nodes, start + size, start);
    }
  }

  /** An allocation keeps the heap sound exactly if it appends or its record,
      24 times the size away, still ends before the next block. */
  lemma AllocOkIff(m: Tails, nodes: seq<nat>, size: nat, align: nat, k: nat, scale: nat)
    requires Inv(m, nodes) && FirstGap(m, nodes, size, align, k)
    ensures HeapOk(AllocMem(m, nodes, size, align, k, scale), nodes[0]) <==> RecordFits(m, nodes, size, align, k, scale)
  {
    PlaceIsAligned(nodes[k - 1], align);
    var start := Place(nodes[k - 1], align);
    if k < |nodes| {
      InsertOkIff(m, nodes, k, RecordAt(start, size, scale), start);
    } else {
      AllocKeepsInv(m, nodes, size, align, k, scale);
    }
  }

  /** Counted in bytes, as the fit check does, every allocation keeps it. */
  lemma ByteArithmeticAlwaysFits(m: Tails, nodes: seq<nat>, size: nat, align: nat, k: nat)
    requires Inv(m, nodes) && FirstGap(m, nodes, size, align, k)
    ensures HeapOk(AllocMem(m, nodes, size, align, k, 1), nodes[0])
  {
    AllocOkIff(m, nodes, size, align, k, 1);
  }

  // ---- Round trips ----

  /** Freeing what an allocation returned, when that came from a gap, gives back
      every record but the freed one, and the list as it was. */
  lemma AllocThenFree(m: Tails, nodes: seq<nat>, size: nat, align: nat, k: nat, j: nat)
    requires Inv(m, nodes) && FirstGap(m, nodes, size, align, k) && k < |nodes|
    requires RecordFits(m, nodes, size, align, k, SCALE)
    requires var ns := AllocNodes(nodes, size, align, k, SCALE);
             j < |ns| && At(AllocMem(m, nodes, size, align, k, SCALE), ns[j]).vaddr == Place(nodes[k - 1], align)
    ensures var m1 := AllocMem(m, nodes, size, align, k, SCALE); var ns := AllocNodes(nodes, size, align, k, SCALE);
            && j == k && Without(ns, j) == nodes && Inv(Unlinked(m1, ns[j]), nodes)
            && forall a :: a != ns[j] ==> At(Unlinked(m1, ns[j]), a) == At(m, a)
  {
    var m1, ns := AllocMem(m, nodes, size, align, k, SCALE), AllocNodes(nodes, size, align, k, SCALE);
    var start := Place(nodes[k - 1], align);
    var at := RecordAt(start, size, SCALE);
    PlaceIsAligned(nodes[k - 1], align);
    AllocKeepsInv(m, nodes, size, align, k, SCALE);
    assert SpacedAt(m, nodes, k);
    InsertedRecords(m, nodes, k, at, start);
    StartsDiffer(m1, ns, j, k);
    InsertThenUnlink(m, nodes, k, at, start);
  }

  /** After an interior block is freed, an unaligned allocation of no more than
      its size goes into a gap at or below it.  The heap is sound then exactly if
      the record fits that gap, and in that case the last record stays the last. */
  lemma FreeThenAlloc(m: Tails, nodes: seq<nat>, k: nat, size: nat, j: nat, scale: nat)
    requires Inv(m, nodes) && 1 <= k < |nodes| - 1
    requires At(m, nodes[k]).vaddr + size <= nodes[k]
    requires FirstGap(Unlinked(m, nodes[k]), Without(nodes, k), size, 0, j)
    ensures var m1, ns := Unlinked(m, nodes[k]), Without(nodes, k);
            var m2, ns2 := AllocMem(m1, ns, size, 0, j, scale), AllocNodes(ns, size, 0, j, scale);
            && j < |ns| && Place(ns[j - 1], 0) <= At(m, nodes[k]).vaddr
            && (HeapOk(m2, nodes[0]) <==> RecordFits(m1, ns, size, 0, j, scale))
            && (RecordFits(m1, ns, size, 0, j, scale) ==> Inv(m2, ns2) && ns2[|ns2| - 1] == nodes[|nodes| - 1])
  {
    var m1, ns := Unlinked(m, nodes[k]), Without(nodes, k);
    UnlinkKeepsInv(m, nodes, k);
    FreedGapIsReused(m, nodes, k, size, j);
    AllocOkIff(m1, ns, size, 0, j, scale);
    if RecordFits(m1, ns, size, 0, j, scale) { AllocKeepsInv(m1, ns, size, 0, j, scale); }
  }

  /** Counted in bytes the heap is always sound and ends where it ended. */
  lemma FreeThenAllocInBytes(m: Tails, nodes: seq<nat>, k: nat, size: nat, j: nat)
    requires Inv(m, nodes) && 1 <= k < |nodes| - 1
    requires At(m, nodes[k]).vaddr + size <= nodes[k]
    requires FirstGap(Unlinked(m, nodes[k]), Without(nodes, k), size, 0, j)
    ensures var m1, ns := Unlinked(m, nodes[k]), Without(nodes, k);
            var ns2 := AllocNodes(ns, size, 0, j, 1);
            Inv(AllocMem(m1, ns, size, 0, j, 1), ns2) && ns2[|ns2| - 1] == nodes[|nodes| - 1]
  {
    FreeThenAlloc(m, nodes, k, size, j, 1);
  }

  // ---- Runs ----

  datatype Heap = Heap(tails: Tails, nodes: seq<nat>)

  /** `Alloc` with the gap it found; `Free` of the block of node `k`; `Miss`, a
      free of an address no block starts at. */
  datatype Op = Alloc(size: nat, align: nat, k: nat) | Free(k: nat) | Miss(addr: nat)

  ghost predicate Step(a: Heap, op: Op, b: Heap) {
    match op
    case Alloc(size, align, k) =>
      && FirstGap(a.tails, a.nodes, size, align, k)
      && b == Heap(AllocMem(a.tails, a.nodes, size, align, k, SCALE), AllocNodes(a.nodes, size, align, k, SCALE))
    case Free(k) =>
      && k < |a.nodes|
      && b == Heap(Unlinked(a.tails, a.nodes[k]), if k == 0 then a.nodes else Without(a.nodes, k))
    case Miss(addr) =>
      && (forall i :: 0 <= i < |a.nodes| ==> At(a.tails, a.nodes[i]).vaddr != addr)
      && b == a
  }

  /** What a caller can check before the call: the record fits the gap, and the
      block freed is not the kernel's own. */
  ghost predicate Guard(a: Heap, op: Op) {
    match op
    case Alloc(size, align, k) => 1 <= k <= |a.nodes| && RecordFits(a.tails, a.nodes, size, align, k, SCALE)
    case Free(k) => k > 0
    case Miss(addr) => true
  }

  lemma StepKeepsInv(a: Heap, op: Op, b: Heap)
    requires Inv(a.tails, a.nodes) && Step(a, op, b) && Guard(a, op)
    ensures Inv(b.tails, b.nodes) && b.nodes[0] == a.nodes[0]
  {
    match op {
      case Alloc(size, align, k) => AllocKeepsInv(a.tails, a.nodes, size, align, k, SCALE);
      case Free(k) => UnlinkKeepsInv(a.tails, a.nodes, k);
      case Miss(addr) =>
    }
  }

  ghost predicate Execution(states: seq<Heap>, ops: seq<Op>)
    decreases |ops|
  {
    var n := |ops|;
    && |states| == n + 1
    && (n > 0 ==>
          && Step(states[n - 1], ops[n - 1], states[n])
          && Guard(states[n - 1], ops[n - 1])
          && Execution(states[..n], ops[..n - 1]))
  }

  /** Over every run of guarded calls the list stays a list, linked both ways,
      and no block or record overlaps another. */
  lemma {:induction false} RunsKeepBlocksApart(states: seq<Heap>, ops: seq<Op>)
    requires Execution(states, ops) && Inv(states[0].tails, states[0].nodes)
    ensures var h := states[|ops|];
            && Inv(h.tails, h.nodes) && h.nodes[0] == states[0].nodes[0]
            && forall i, j :: 0 <= i < j < |h.nodes| ==>
                 h.nodes[i] + TAIL <= At(h.tails, h.nodes[j]).vaddr && h.nodes[i] < h.nodes[j]
    decreases |ops|
  {
    hide Inv, Step, Guard;
    var n := |ops|;
    if n > 0 {
      RunsKeepBlocksApart(states[..n], ops[..n - 1]);
      StepKeepsInv(states[n - 1], ops[n - 1], states[n]);
    }
    BlocksDisjoint(states[n].tails, states[n].nodes);
  }

  // ---- Two runs that break the heap ----

  /** What `mem_init` leaves for a kernel that ends at `end`. */
  function Start(end: nat): Heap { Heap(map[end := Tail(0, 0, 0x2000)], [end]) }

  function AfterAlloc(h: Heap, size: nat, k: nat): Heap
    requires 1 <= k <= |h.nodes|
  {
    Heap(AllocMem(h.tails, h.nodes, size, 0, k, SCALE), AllocNodes(h.nodes, size, 0, k, SCALE))
  }

  function AfterFree(h: Heap, k: nat): Heap
    requires 1 <= k < |h.nodes|
  {
    Heap(Unlinked(h.tails, h.nodes[k]), Without(h.nodes, k))
  }

  /** Guarded calls lead from `mem_init` to `h`. */
  ghost predicate Reachable(end: nat, h: Heap) {
    exists states: seq<Heap>, ops :: Execution(states, ops) && states[0] == Start(end) && states[|ops|] == h
  }

  lemma StartReachable(end: nat)
    ensures Reachable(end, Start(end))
  {
    assert Execution([Start(end)], []);
  }

  lemma StepReachable(end: nat, a: Heap, op: Op, b: Heap)
    requires Reachable(end, a) && Step(a, op, b) && Guard(a, op)
    ensures Reachable(end, b)
  {
    var states: seq<Heap>, ops :| Execution(states, ops) && states[0] == Start(end) && states[|ops|] == a;
    assert (states + [b])[..|ops| + 1] == states && (ops + [op])[..|ops|] == ops;
    assert Execution(states + [b], ops + [op]);
  }

  /** Every block starts where the record before it ends. */
  ghost predicate Tight(h: Heap) {
    Inv(h.tails, h.nodes) && forall i :: 1 <= i < |h.nodes| ==> At(h.tails, h.nodes[i]).vaddr == h.nodes[i - 1] + TAIL
  }

  lemma StartIsTight(end: nat)
    requires end >= 0x2000
    ensures Tight(Start(end))
  {
    var h := Start(end);
    assert LinkedAt(h.tails, h.nodes, 0) && SpacedAt(h.tails, h.nodes, 0);
  }

  /** Without gaps an unaligned allocation appends. */
  lemma AppendTight(h: Heap, size: nat)
    requires Tight(h)
    ensures var b := AfterAlloc(h, size, |h.nodes|);
            && Step(h, Alloc(size, 0, |h.nodes|), b) && Tight(b)
            && b.nodes == h.nodes + [h.nodes[|h.nodes| - 1] + TAIL + size]
  {
    var n := |h.nodes|;
    assert FirstGap(h.tails, h.nodes, size, 0, n);
    AllocKeepsInv(h.tails, h.nodes, size, 0, n, SCALE);
    BlocksDisjoint(h.tails, h.nodes);
  }

  /** After the free of an interior block its gap reaches up to the next block. */
  lemma FreedBlock(h: Heap, k: nat)
    requires Tight(h) && 1 <= k < |h.nodes| - 1
    ensures var b := AfterFree(h, k);
            && Step(h, Free(k), b) && Inv(b.tails, b.nodes)
            && At(b.tails, b.nodes[k]).vaddr == h.nodes[k] + TAIL
  {
    UnlinkKeepsInv(h.tails, h.nodes, k);
    BlocksDisjoint(h.tails, h.nodes);
    assert LinkedAt(h.tails, h.nodes, k);
  }

  /** A reachable heap without gaps and another block at its end. */
  lemma GrowTight(end: nat, h: Heap, size: nat) returns (b: Heap)
    requires Reachable(end, h) && Tight(h)
    ensures Reachable(end, b) && Tight(b) && b.nodes == h.nodes + [h.nodes[|h.nodes| - 1] + TAIL + size]
  {
    hide Reachable, Step, AllocMem;
    b := AfterAlloc(h, size, |h.nodes|);
    AppendTight(h, size);
    StepReachable(end, h, Alloc(size, 0, |h.nodes|), b);
  }

  lemma FreeTight(end: nat, h: Heap, k: nat) returns (b: Heap)
    requires Reachable(end, h) && Tight(h) && 1 <= k < |h.nodes| - 1
    ensures Reachable(end, b) && Inv(b.tails, b.nodes)
    ensures b.nodes == Without(h.nodes, k) && At(b.tails, b.nodes[k]).vaddr == h.nodes[k] + TAIL
  {
    hide Reachable, Step, Unlinked, Tight;
    b := AfterFree(h, k);
    FreedBlock(h, k);
    StepReachable(end, h, Free(k), b);
  }

  /** Blocks of 80 and 128 bytes, of which the first is freed: that leaves a gap
      of 104 bytes, and the record of a 16-byte block put there lands beyond the
      next one. */
  lemma SixteenBytesOverrun() returns (h: Heap)
    ensures Reachable(0xFE5_0000, h) && Inv(h.tails, h.nodes) && h.nodes == [0xFE5_0000, 0xFE5_0100]
    ensures FirstGap(h.tails, h.nodes, 16, 0, 1)
    ensures !HeapOk(AllocMem(h.tails, h.nodes, 16, 0, 1, SCALE), 0xFE5_0000)
  {
    hide Reachable, Tight, AllocMem;
    StartReachable(0xFE5_0000);
    StartIsTight(0xFE5_0000);
    var h1 := GrowTight(0xFE5_0000, Start(0xFE5_0000), 80);
    var h2 := GrowTight(0xFE5_0000, h1, 128);
    h := FreeTight(0xFE5_0000, h2, 1);
    AllocOkIff(h.tails, h.nodes, 16, 0, 1, SCALE);
  }

  /** Blocks of 16, 192 and 128 bytes; the first is freed and its 16 bytes are
      asked for again.  The new record lands on the last one and the links run
      in a circle. */
  lemma FreeThenAllocLoops() returns (h: Heap)
    ensures Reachable(0xFE5_0000, h) && Inv(h.tails, h.nodes)
    ensures h.nodes == [0xFE5_0000, 0xFE5_0100, 0xFE5_0198] && FirstGap(h.tails, h.nodes, 16, 0, 1)
    ensures var m := AllocMem(h.tails, h.nodes, 16, 0, 1, SCALE);
            && At(m, 0xFE5_0000).next == 0xFE5_0198
            && At(m, 0xFE5_0198).next == 0xFE5_0100 && At(m, 0xFE5_0100).next == 0xFE5_0198
            && !HeapOk(m, 0xFE5_0000)
  {
    hide Reachable, Tight, AllocMem;
    StartReachable(0xFE5_0000);
    StartIsTight(0xFE5_0000);
    var h1 := GrowTight(0xFE5_0000, Start(0xFE5_0000), 16);
    var h2 := GrowTight(0xFE5_0000, h1, 192);
    var h3 := GrowTight(0xFE5_0000, h2, 128);
    h := FreeTight(0xFE5_0000, h3, 1);
    Circle(h.tails, h.nodes);
  }

  /** The record of the 16-byte block lands on the last record. */
  lemma Circle(m: Tails, nodes: seq<nat>)
    requires nodes == [0xFE5_0000, 0xFE5_0100, 0xFE5_0198] && Inv(m, nodes)
    requires At(m, 0xFE5_0100).vaddr == 0xFE5_0040
    ensures var m1 := AllocMem(m, nodes, 16, 0, 1, SCALE);
            && FirstGap(m, nodes, 16, 0, 1)
            && At(m1, 0xFE5_0000).next == 0xFE5_0198
            && At(m1, 0xFE5_0198).next == 0xFE5_0100 && At(m1, 0xFE5_0100).next == 0xFE5_0198
            && !HeapOk(m1, 0xFE5_0000)
  {
    assert LinkedAt(m, nodes, 0) && LinkedAt(m, nodes, 1) && LinkedAt(m, nodes, 2);
    AllocOkIff(m, nodes, 16, 0, 1, SCALE);
  }
}
