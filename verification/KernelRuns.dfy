/** Runs of `mem_alloc` and `mem_free` together with the pages they back
    (kernel/src/code/mem/alloc.c lines 32-121). */
module KernelRuns {
  import opened PageMapping
  import opened Words
  import opened MemoryMap
  import opened Paging
  import opened HeapList
  import opened HeapRuns
  import opened KernelHeap

  datatype Machine = Machine(heap: Heap, store: Store)

  /** A call on the heap, for which `given` was mapped, or anything that happens to
      the store in between. */
  datatype Call = OnHeap(op: Op, given: map<nat, RamPage>) | Between(event: Event)

  /** Where the record of the block put at gap `k`, or at the end, will end. */
  function BlockEnd(nodes: seq<nat>, size: nat, align: nat, k: nat): nat
    requires 1 <= k <= |nodes|
  {
    Place(nodes[k - 1], align) + (if k < |nodes| then SCALE * size else size) + TAIL
  }

  ghost predicate Runs(regions: seq<Region>, a: Machine, call: Call, b: Machine) {
    match call
    case OnHeap(op, given) =>
      && Step(a.heap, op, b.heap)
      && (if op.Alloc? then
            && Backs(regions, a.store, b.store, given)
            && Backed(b.store, Place(a.heap.nodes[op.k - 1], op.align), BlockEnd(a.heap.nodes, op.size, op.align, op.k))
          else b.store == a.store && given == map[])
    case Between(event) => b.heap == a.heap && Happens(regions, a.store, event, b.store)
  }

  /** A guarded call, as in `HeapRuns`. */
  ghost predicate MayRun(a: Machine, call: Call) {
    call.OnHeap? ==> Guard(a.heap, call.op)
  }

  /** What `Allocator.Alloc` ensures when it returns is such a call. */
  lemma AllocRuns(regions: seq<Region>, a: Machine, b: Machine, size: nat, align: nat, k: nat, start: nat,
                  given: map<nat, RamPage>)
    requires Placed(a.heap.tails, a.heap.nodes, size, align, k, start, b.heap.tails, b.heap.nodes)
    requires Backs(regions, a.store, b.store, given)
    requires Backed(b.store, start, start + (if k < |a.heap.nodes| then SCALE * size else size) + TAIL)
    ensures Runs(regions, a, OnHeap(Alloc(size, align, k), given), b)
  {
    hide Backs, Backed;
  }

  // ---- Live blocks stay mapped ----

  /** First byte of node `i`: that of its block, or of its record for the kernel's
      own node, whose block is not the heap's to map. */
  function First(h: Heap, i: nat): nat
    requires i < |h.nodes|
  {
    if i == 0 then h.nodes[0] else At(h.tails, h.nodes[i]).vaddr
  }

  /** The heap is sound, and every page of every block and record has a frame. */
  ghost predicate Live(a: Machine) {
    && Inv(a.heap.tails, a.heap.nodes)
    && forall i: nat :: i < |a.heap.nodes| ==> Backed(a.store, First(a.heap, i), a.heap.nodes[i] + TAIL)
  }

  /** Node `i` of `b` is node `o` of `a`, and starts where it did. */
  ghost predicate SameNode(a: Heap, b: Heap, i: nat, o: nat) {
    i < |b.nodes| && o < |a.nodes| && b.nodes[i] == a.nodes[o] && First(b, i) == First(a, o)
  }

  lemma BackedStays(regions: seq<Region>, a: Store, b: Store, given: map<nat, RamPage>, start: nat, end: nat)
    requires Gives(regions, a, b, given) && Backed(a, start, end)
    ensures Backed(b, start, end)
  {
    hide Gives, PageWord, Frame;
    forall n: nat | start / 0x1000 <= n && 0x1000 * n < end ensures FrameOf(b, n).Some? {
      assert FrameOf(a, n).Some?;
      MappingsStay(regions, a, b, given, PageWord(n));
    }
  }

  /** An allocation adds one node and leaves all others where they were. */
  lemma AllocNode(a: Heap, size: nat, align: nat, k: nat, b: Heap, i: nat)
    requires Inv(a.tails, a.nodes) && Step(a, Alloc(size, align, k), b) && Guard(a, Alloc(size, align, k))
    requires i < |b.nodes| && i != k
    ensures SameNode(a, b, i, if i < k then i else i - 1)
  {
    BlocksDisjoint(a.tails, a.nodes);
    PlaceIsAligned(a.nodes[k - 1], align);
    var start := Place(a.nodes[k - 1], align);
    if k < |a.nodes| {
      assert SpacedAt(a.tails, a.nodes, k);
      InsertedRecords(a.tails, a.nodes, k, RecordAt(start, size, SCALE), start);
    }
  }

  lemma NewNode(a: Heap, size: nat, align: nat, k: nat, b: Heap)
    requires Inv(a.tails, a.nodes) && Step(a, Alloc(size, align, k), b) && Guard(a, Alloc(size, align, k))
    ensures |b.nodes| == |a.nodes| + 1 && k < |b.nodes|
    ensures First(b, k) == Place(a.nodes[k - 1], align) && b.nodes[k] + TAIL == BlockEnd(a.nodes, size, align, k)
  {
    BlocksDisjoint(a.tails, a.nodes);
    PlaceIsAligned(a.nodes[k - 1], align);
    var start := Place(a.nodes[k - 1], align);
    if k < |a.nodes| {
      assert SpacedAt(a.tails, a.nodes, k);
      InsertedRecords(a.tails, a.nodes, k, RecordAt(start, size, SCALE), start);
    }
  }

  lemma FreeNode(a: Heap, k: nat, b: Heap, i: nat)
    requires Inv(a.tails, a.nodes) && Step(a, Free(k), b) && k > 0 && i < |b.nodes|
    ensures SameNode(a, b, i, if i < k then i else i + 1)
  {
    BlocksDisjoint(a.tails, a.nodes);
    assert LinkedAt(a.tails, a.nodes, k);
  }

  function EventOf(call: Call): Event {
    if call.OnHeap? then Checked(call.given) else call.event
  }

  lemma RunsHappens(regions: seq<Region>, a: Machine, call: Call, b: Machine)
    requires Runs(regions, a, call, b)
    ensures Happens(regions, a.store, EventOf(call), b.store)
    ensures Gives(regions, a.store, b.store, GivenBy(EventOf(call)))
  {
    hide Gives, Step;
    if call.OnHeap? && !call.op.Alloc? { BacksNothing(regions, a.store); }
    TakenGives(regions, a.store, EventOf(call), b.store);
  }

  lemma HeapStays(regions: seq<Region>, a: Machine, call: Call, b: Machine)
    requires Inv(a.heap.tails, a.heap.nodes) && Runs(regions, a, call, b) && MayRun(a, call)
    ensures Inv(b.heap.tails, b.heap.nodes)
  {
    hide Inv, Backs, Backed, Happens;
    if call.OnHeap? { StepKeepsInv(a.heap, call.op, b.heap); }
  }

  lemma RunKeepsLive(regions: seq<Region>, a: Machine, call: Call, b: Machine)
    requires Live(a) && Runs(regions, a, call, b) && MayRun(a, call)
    ensures Live(b)
  {
    hide Backs, Backed, Gives, Happens, Step, Guard, Inv, First;
    RunsHappens(regions, a, call, b);
    HeapStays(regions, a, call, b);
    forall i: nat | i < |b.heap.nodes| ensures Backed(b.store, First(b.heap, i), b.heap.nodes[i] + TAIL) {
      if call.OnHeap? && call.op.Alloc? && i == call.op.k {
        NewNode(a.heap, call.op.size, call.op.align, call.op.k, b.heap);
      } else {
        var o := OldNode(regions, a, call, b, i);
        BackedStays(regions, a.store, b.store, GivenBy(EventOf(call)), First(a.heap, o), a.heap.nodes[o] + TAIL);
      }
    }
  }

  /** The node of `a` that node `i` of `b` was. */
  lemma OldNode(regions: seq<Region>, a: Machine, call: Call, b: Machine, i: nat) returns (o: nat)
    requires Live(a) && Runs(regions, a, call, b) && MayRun(a, call)
    requires i < |b.heap.nodes| && !(call.OnHeap? && call.op.Alloc? && i == call.op.k)
    ensures SameNode(a.heap, b.heap, i, o)
  {
    hide Backs, Backed, Happens, Inv, Inserted, Appended, Unlinked;
    o := i;
    if call.OnHeap? {
      match call.op {
        case Alloc(size, align, k) =>
          AllocNode(a.heap, size, align, k, b.heap, i);
          o := if i < k then i else i - 1;
        case Free(k) =>
          FreeNode(a.heap, k, b.heap, i);
          o := if i < k then i else i + 1;
        case Miss(addr) =>
      }
    }
  }

  // ---- Runs ----

  ghost predicate History(regions: seq<Region>, states: seq<Machine>, calls: seq<Call>)
    decreases |calls|
  {
    var n := |calls|;
    && |states| == n + 1
    && (n > 0 ==>
          && Runs(regions, states[n - 1], calls[n - 1], states[n])
          && MayRun(states[n - 1], calls[n - 1])
          && History(regions, states[..n], calls[..n - 1]))
  }

  function Events(calls: seq<Call>): seq<Event> {
    if calls == [] then [] else Events(calls[..|calls| - 1]) + [EventOf(calls[|calls| - 1])]
  }

  /** Over every run of guarded heap calls, with page checks and allocations of
      frames in between, every live block and record stays mapped, no two of them
      overlap, and each page of memory taken was taken once. */
  lemma {:induction false} RunsKeepBlocksMapped(regions: seq<Region>, states: seq<Machine>, calls: seq<Call>)
    requires History(regions, states, calls) && Live(states[0])
    ensures var h := states[|calls|].heap;
            && Live(states[|calls|])
            && forall i, j :: 0 <= i < j < |h.nodes| ==>
                 h.nodes[i] + TAIL <= At(h.tails, h.nodes[j]).vaddr && h.nodes[i] < h.nodes[j]
    ensures Accounts(regions, states[0].store, states[|calls|].store, All(Events(calls)), Events(calls))
    decreases |calls|
  {
    hide Runs, MayRun, Inv, Backed, Accounts;
    var n := |calls|;
    if n == 0 {
      AccountsNothing(regions, states[0].store);
    } else {
      var before := calls[..n - 1];
      RunsKeepBlocksMapped(regions, states[..n], before);
      RunKeepsLive(regions, states[n - 1], calls[n - 1], states[n]);
      RunsHappens(regions, states[n - 1], calls[n - 1], states[n]);
      var events, e := Events(before), EventOf(calls[n - 1]);
      AccountsNext(regions, states[0].store, states[n - 1].store, states[n].store, All(events), events, e);
      assert Events(calls)[..n - 1] == events && Events(calls)[n - 1] == e by { EventCount(before); }
    }
    BlocksDisjoint(states[n].heap.tails, states[n].heap.nodes);
  }

  lemma {:induction false} EventCount(calls: seq<Call>)
    ensures |Events(calls)| == |calls|
    decreases |calls|
  {
    if calls != [] { EventCount(calls[..|calls| - 1]); }
  }
}
