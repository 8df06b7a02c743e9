/** `mem_alloc(0x1000, 0x1000)` called from within another `mem_alloc`, between
    the choice of its place and its stores (kernel/src/code/mem/alloc.c lines
    48-104, page_map.c lines 100-118). */
module HeapNested {
  import opened HeapList
  import opened HeapRuns

  /** The outer call found gap `k`, or the end of the list.  Then the inner call
      found `j` and linked its record, and then the outer call links its own,
      through the links as they are by then. */
  function NestedAlloc(m: Tails, nodes: seq<nat>, size: nat, align: nat, k: nat, j: nat): Tails
    requires 1 <= k <= |nodes| && 1 <= j <= |nodes|
  {
    var m1, start := AllocMem(m, nodes, 0x1000, 0x1000, j, SCALE), Place(nodes[k - 1], align);
    if k < |nodes| then Inserted(m1, nodes[k], RecordAt(start, size, SCALE), start)
    else Appended(m1, nodes[k - 1], start + size, start)
  }

  /** Both calls find a place whose record fits. */
  ghost predicate BothFit(m: Tails, nodes: seq<nat>, size: nat, align: nat, k: nat, j: nat) {
    && Inv(m, nodes)
    && FirstGap(m, nodes, size, align, k) && RecordFits(m, nodes, size, align, k, SCALE)
    && FirstGap(m, nodes, 0x1000, 0x1000, j) && RecordFits(m, nodes, 0x1000, 0x1000, j, SCALE)
  }

  /** Both records are on the list, and it is sound. */
  ghost predicate BothKept(m: Tails, nodes: seq<nat>, size: nat, align: nat, k: nat, j: nat)
    requires 1 <= k <= |nodes| && 1 <= j <= |nodes|
  {
    exists q :: Inv(NestedAlloc(m, nodes, size, align, k, j), q) && q[0] == nodes[0] && |q| == |nodes| + 2
  }

  /** The inner record ends before the block the outer call chose in that gap. */
  predicate InnerBefore(nodes: seq<nat>, align: nat, k: nat)
    requires 1 <= k <= |nodes|
  {
    k < |nodes| && Place(nodes[k - 1], 0x1000) + SCALE * 0x1000 + TAIL <= Place(nodes[k - 1], align)
  }

  // ---- Different places ----

  /** The inner call changes no block start and moves gap `k` by one if it is
      further up. */
  lemma InnerKeepsStarts(m: Tails, nodes: seq<nat>, j: nat)
    requires Inv(m, nodes) && FirstGap(m, nodes, 0x1000, 0x1000, j)
    requires RecordFits(m, nodes, 0x1000, 0x1000, j, SCALE)
    ensures forall i: nat :: i < |nodes| ==>
              At(AllocMem(m, nodes, 0x1000, 0x1000, j, SCALE), nodes[i]).vaddr == At(m, nodes[i]).vaddr
  {
    PlaceIsAligned(nodes[j - 1], 0x1000);
    BlocksDisjoint(m, nodes);
    if j < |nodes| {
      var start := Place(nodes[j - 1], 0x1000);
      assert SpacedAt(m, nodes, j);
      InsertedRecords(m, nodes, j, RecordAt(start, 0x1000, SCALE), start);
    }
  }

  lemma NestedElsewhere(m: Tails, nodes: seq<nat>, size: nat, align: nat, k: nat, j: nat)
    requires BothFit(m, nodes, size, align, k, j) && j != k
    ensures BothKept(m, nodes, size, align, k, j)
  {
    hide Inserted, Appended, Inv;
    var m1, ns := AllocMem(m, nodes, 0x1000, 0x1000, j, SCALE), AllocNodes(nodes, 0x1000, 0x1000, j, SCALE);
    var start := Place(nodes[k - 1], align);
    PlaceIsAligned(nodes[k - 1], align);
    AllocKeepsInv(m, nodes, 0x1000, 0x1000, j, SCALE);
    InnerKeepsStarts(m, nodes, j);
    var k1 := if j < k then k + 1 else k;
    assert ns[k1 - 1] == nodes[k - 1];
    if k < |nodes| {
      assert ns[k1] == nodes[k];
      InsertKeepsInv(m1, ns, k1, RecordAt(start, size, SCALE), start);
      assert With(ns, k1, RecordAt(start, size, SCALE))[0] == nodes[0];
    } else {
      AppendKeepsInv(m1, ns, start + size, start);
      assert (ns + [start + size])[0] == nodes[0];
    }
  }

  // ---- The same gap ----

  /** The outer record is linked behind the inner one, wherever they lie. */
  lemma NestedSameGap(m: Tails, nodes: seq<nat>, size: nat, align: nat, k: nat)
    requires BothFit(m, nodes, size, align, k, k) && k < |nodes|
    ensures BothKept(m, nodes, size, align, k, k) <==> InnerBefore(nodes, align, k)
    ensures HeapOk(NestedAlloc(m, nodes, size, align, k, k), nodes[0]) <==> InnerBefore(nodes, align, k)
  {
    hide Inserted;
    var m1, ns := AllocMem(m, nodes, 0x1000, 0x1000, k, SCALE), AllocNodes(nodes, 0x1000, 0x1000, k, SCALE);
    var start := Place(nodes[k - 1], align);
    var at := RecordAt(start, size, SCALE);
    PlaceIsAligned(nodes[k - 1], align);
    AllocKeepsInv(m, nodes, 0x1000, 0x1000, k, SCALE);
    InnerKeepsStarts(m, nodes, k);
    BlocksDisjoint(m, nodes);
    assert SpacedAt(m, nodes, k);
    if InnerBefore(nodes, align, k) {
      InsertKeepsInv(m1, ns, k + 1, at, start);
      assert With(ns, k + 1, at)[0] == nodes[0];
    }
    forall q | Inv(NestedAlloc(m, nodes, size, align, k, k), q) && q[0] == nodes[0]
      ensures InnerBefore(nodes, align, k)
    {
      InsertedPrefix(m1, ns, k + 1, at, start, q, k);
      assert SpacedAt(NestedAlloc(m, nodes, size, align, k, k), q, k + 1);
      InsertedStart(m1, nodes[k], at, start);
    }
  }

  lemma InsertedStart(m: Tails, entry: nat, at: nat, start: nat)
    requires at != entry
    ensures At(Inserted(m, entry, at, start), at).vaddr == start
  {
  }

  // ---- The end of the list ----

  lemma NestedRecords(m: Tails, nodes: seq<nat>, size: nat, align: nat)
    requires Inv(m, nodes)
    ensures var n := |nodes|;
            var m' := NestedAlloc(m, nodes, size, align, n, n);
            && Inv(m', nodes + [Place(nodes[n - 1], align) + size])
            && forall i: nat :: i < n ==> At(m', nodes[i]).vaddr == At(m, nodes[i]).vaddr
  {
    var n := |nodes|;
    var last := nodes[n - 1];
    var m', ns := NestedAlloc(m, nodes, size, align, n, n), nodes + [Place(last, align) + size];
    PlaceIsAligned(last, 0x1000);
    PlaceIsAligned(last, align);
    BlocksDisjoint(m, nodes);
    forall i: nat | i < n
      ensures At(m', nodes[i]).vaddr == At(m, nodes[i]).vaddr && At(m', nodes[i]).prev == At(m, nodes[i]).prev
    {
      assert i < n - 1 ==> At(m', nodes[i]) == At(m, nodes[i]);
    }
    forall i: nat | i < |ns| ensures LinkedAt(m', ns, i) && SpacedAt(m', ns, i) {
      if i < n {
        assert LinkedAt(m, nodes, i) && SpacedAt(m, nodes, i);
        assert i < n - 1 ==> At(m', nodes[i]) == At(m, nodes[i]);
      }
    }
  }

  /** Both calls append after the same record.  The list afterwards is the old one
      with the outer record alone: a later free finds the inner block exactly if
      both calls got the same start. */
  lemma NestedAppendIsLost(m: Tails, nodes: seq<nat>, size: nat, align: nat)
    requires BothFit(m, nodes, size, align, |nodes|, |nodes|)
    ensures var last := nodes[|nodes| - 1];
            var m', ns := NestedAlloc(m, nodes, size, align, |nodes|, |nodes|), nodes + [Place(last, align) + size];
            && Inv(m', ns)
            && (forall q :: Chain(m', q) && q[0] == nodes[0] ==> q == ns)
            && ((exists i: nat :: i < |ns| && At(m', ns[i]).vaddr == Place(last, 0x1000)) <==>
                Place(last, align) == Place(last, 0x1000))
  {
    var n := |nodes|;
    var last := nodes[n - 1];
    var m', ns := NestedAlloc(m, nodes, size, align, n, n), nodes + [Place(last, align) + size];
    NestedRecords(m, nodes, size, align);
    PlaceIsAligned(last, 0x1000);
    BlocksDisjoint(m', ns);
    forall q | Chain(m', q) && q[0] == nodes[0] ensures q == ns { ChainUnique(m', q, ns); }
    forall i: nat | i < n ensures At(m', ns[i]).vaddr < Place(last, 0x1000) {
      assert SpacedAt(m', ns, i);
      if i < n - 1 { BlocksDisjoint(m, nodes); }
    }
    assert At(m', ns[n]).vaddr == Place(last, align);
  }

  // ---- Exactly when both stay ----

  /** Both records stay on a sound list exactly if the calls chose different
      places, or the same gap and the inner record ends before the outer block. */
  lemma NestedKeptIff(m: Tails, nodes: seq<nat>, size: nat, align: nat, k: nat, j: nat)
    requires BothFit(m, nodes, size, align, k, j)
    ensures BothKept(m, nodes, size, align, k, j) <==> j != k || InnerBefore(nodes, align, k)
  {
    if j != k {
      NestedElsewhere(m, nodes, size, align, k, j);
    } else if k < |nodes| {
      NestedSameGap(m, nodes, size, align, k);
    } else {
      NestedAppendIsLost(m, nodes, size, align);
    }
  }

  /** The list is sound, with both records or not, exactly then or if both calls
      append. */
  lemma NestedOkIff(m: Tails, nodes: seq<nat>, size: nat, align: nat, k: nat, j: nat)
    requires BothFit(m, nodes, size, align, k, j)
    ensures HeapOk(NestedAlloc(m, nodes, size, align, k, j), nodes[0]) <==>
            j != k || k == |nodes| || InnerBefore(nodes, align, k)
  {
    if j != k {
      NestedElsewhere(m, nodes, size, align, k, j);
    } else if k < |nodes| {
      NestedSameGap(m, nodes, size, align, k);
    } else {
      NestedAppendIsLost(m, nodes, size, align);
    }
  }

  /** After `mem_init` for a kernel that ends at 0xFE5_0000, a request for two
      megabytes, which reaches page 0x1000_0000: the inner block lies inside the
      outer one, and no record of it is left. */
  lemma NestedAppendOverlaps()
    ensures var h := Start(0xFE5_0000);
            var m' := NestedAlloc(h.tails, h.nodes, 0x20_0000, 0, 1, 1);
            var inner, outer := Place(0xFE5_0000, 0x1000), Place(0xFE5_0000, 0);
            && BothFit(h.tails, h.nodes, 0x20_0000, 0, 1, 1)
            && outer < inner && inner + 0x1000 + TAIL < 0x1000_0000 < outer + 0x20_0000
            && (forall q :: Chain(m', q) && q[0] == 0xFE5_0000 ==> q == [0xFE5_0000, outer + 0x20_0000])
            && inner + 0x1000 != outer + 0x20_0000
  {
    var h := Start(0xFE5_0000);
    StartIsTight(0xFE5_0000);
    NestedAppendIsLost(h.tails, h.nodes, 0x20_0000, 0);
  }
}
