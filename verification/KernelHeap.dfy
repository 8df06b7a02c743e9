/** `mem_init`, `mem_alloc` and `mem_free` as they run
    (kernel/src/code/mem/alloc.c lines 11-121). */
module KernelHeap {
  import opened Words
  import opened HeapList
  import opened PageMapping
  import opened HeapRuns
  import opened Paging
  import opened Pager

  class Allocator {
    const source: PageSource
    var tails: Tails
    var listStart: nat
    ghost var nodes: seq<nat>

    ghost predicate Sound()
      reads this
    {
      Inv(tails, nodes) && nodes[0] == listStart
    }

    /** `mem_init`: the kernel's own record is the whole list. */
    constructor (source: PageSource, tails: Tails, kernelEnd: nat)
      requires kernelEnd >= 0x2000
      ensures Sound() && nodes == [kernelEnd] && this.source == source
      ensures this.tails == tails[kernelEnd := Tail(0, 0, 0x2000)]
    {
      this.source := source;
      this.tails := tails[kernelEnd := Tail(0, 0, 0x2000)];
      listStart := kernelEnd;
      nodes := [kernelEnd];
      new;
      assert LinkedAt(this.tails, nodes, 0) && SpacedAt(this.tails, nodes, 0);
    }

    /** The blocks stay below 512 GiB, and spare tables suffice for the pages of
        one more block and its record. */
    ghost predicate HasRoom(size: nat, align: nat)
      requires Sound()
      reads this, source, source.pages
    {
      && nodes[|nodes| - 1] + align + SCALE * size + 2 * TAIL <= 0x1000 * LOW_PAGES
      && |source.pages.supply| >= 3 * ((SCALE * size + TAIL) / 0x1000 + 2)
    }

    /** Backs the block and its record, for a block of `length` bytes up to the
        record at `start + length`. */
    method Back(start: nat, length: nat) returns (halted: bool, ghost given: map<nat, RamPage>)
      requires source.Valid() && start + length + TAIL <= 0x1000 * LOW_PAGES
      requires |source.pages.supply| >= 3 * ((length + TAIL) / 0x1000 + 2)
      modifies source.pages, source.frames.bytes
      ensures source.Valid() && Backs(source.frames.regions, old(source.Now()), source.Now(), given)
      ensures halted <==> !Backed(source.Now(), start, start + length + TAIL)
      ensures Meet(given, start, start + length + TAIL)
      ensures halted ==> source.NoFrameLeft()
      ensures old(source.TablesFor(start, start + length + TAIL)) ==>
                |source.pages.supply| == old(|source.pages.supply|)
      ensures !halted && |source.pages.supply| == old(|source.pages.supply|) ==>
                old(source.TablesFor(start, start + length + TAIL))
    {
      hide Backs, Backed, HasTable, Ready, Backable, Meet;
      halted, given := source.CheckPage(start, start + length + TAIL);
    }

    /** Lines 64-75: a block of `size` bytes at `start`, before node `k`. */
    method PutBefore(entry: nat, start: nat, size: nat, ghost align: nat, ghost k: nat)
      returns (halted: bool, ghost given: map<nat, RamPage>)
      requires source.Valid() && Sound() && HasRoom(size, align)
      requires FirstGap(tails, nodes, size, align, k) && k < |nodes| && entry == nodes[k]
      requires start == Place(nodes[k - 1], align)
      modifies this, source.pages, source.frames.bytes
      ensures source.Valid() && Backs(source.frames.regions, old(source.Now()), source.Now(), given)
      ensures listStart == old(listStart)
      ensures if halted then tails == old(tails) && nodes == old(nodes)
              else Placed(old(tails), old(nodes), size, align, k, start, tails, nodes)
      ensures start + SCALE * size + TAIL <= 0x1000 * LOW_PAGES
      ensures halted <==> !Backed(source.Now(), start, start + SCALE * size + TAIL)
      ensures Meet(given, start, start + SCALE * size + TAIL)
      ensures halted ==> source.NoFrameLeft()
      ensures !halted ==>
                (old(source.TablesFor(start, start + SCALE * size + TAIL)) <==>
                 |source.pages.supply| == old(|source.pages.supply|))
    {
      hide Sound, FirstGap, Backs, Inserted, Ready, Backable, HasTable, Backed, RecordFits;
      AtMostLast(tails, nodes, k) by { SoundInv(); }
      FirstGapGap(tails, nodes, size, align, k);
      var insertedEntry := start + SCALE * size;
      halted, given := Back(start, SCALE * size);
      if halted { return; }
      InsertedIs(tails, entry, insertedEntry, start);
      tails := tails[insertedEntry := Tail(entry, At(tails, entry).prev, start)];
      tails := SetNext(tails, At(tails, entry).prev, insertedEntry);
      tails := SetPrev(tails, entry, insertedEntry);
      nodes := With(nodes, k, insertedEntry);
    }

    /** Lines 85-103: a block of `size` bytes at `start`, after the last node. */
    method PutAfter(entry: nat, start: nat, size: nat, ghost align: nat)
      returns (halted: bool, ghost given: map<nat, RamPage>)
      requires source.Valid() && Sound() && HasRoom(size, align)
      requires FirstGap(tails, nodes, size, align, |nodes|) && entry == nodes[|nodes| - 1]
      requires start == Place(entry, align)
      modifies this, source.pages, source.frames.bytes
      ensures source.Valid() && Backs(source.frames.regions, old(source.Now()), source.Now(), given)
      ensures listStart == old(listStart)
      ensures if halted then tails == old(tails) && nodes == old(nodes)
              else Placed(old(tails), old(nodes), size, align, |old(nodes)|, start, tails, nodes)
      ensures start + size + TAIL <= 0x1000 * LOW_PAGES
      ensures halted <==> !Backed(source.Now(), start, start + size + TAIL)
      ensures Meet(given, start, start + size + TAIL)
      ensures halted ==> source.NoFrameLeft()
      ensures !halted ==>
                (old(source.TablesFor(start, start + size + TAIL)) <==>
                 |source.pages.supply| == old(|source.pages.supply|))
    {
      hide Sound, FirstGap, Backs, Ready, Backable, HasTable, Backed, RecordFits;
      PlaceIsAligned(entry, align);
      var appendedEntry := start + size;
      halted, given := Back(start, size);
      if halted { return; }
      tails := tails[appendedEntry := Tail(0, entry, start)];
      tails := SetNext(tails, entry, appendedEntry);
      nodes := nodes + [appendedEntry];
    }

    /** Lines 49-63 and 76-92: walks the list to the first gap that fits, or to
        the last record. */
    method FindPlace(size: nat, align: nat) returns (found: bool, entry: nat, start: nat, ghost k: nat)
      requires Sound()
      ensures FirstGap(tails, nodes, size, align, k) && start == Place(nodes[k - 1], align)
      ensures found <==> k < |nodes|
      ensures entry == if found then nodes[k] else nodes[|nodes| - 1]
    {
      entry := listStart;
      ghost var i := 0;
      while true
        invariant i < |nodes| && entry == nodes[i]
        invariant forall j: nat :: j < i ==> !GapFits(tails, nodes, size, align, j)
        decreases |nodes| - i
      {
        EndLinks(tails, nodes, i);
        if At(tails, entry).prev != 0 {
          var insertedStart := At(tails, entry).prev;
          insertedStart := insertedStart + TAIL;
          if align != 0 {
            insertedStart := insertedStart + (align - insertedStart % align);
          }
          assert insertedStart == Place(nodes[i - 1], align);
          if insertedStart < At(tails, entry).vaddr {
            if size + TAIL <= At(tails, entry).vaddr - insertedStart {
              return true, entry, insertedStart, i;
            }
          }
        }
        assert !GapFits(tails, nodes, size, align, i);
        if At(tails, entry).next == 0 {
          break;
        }
        entry := At(tails, entry).next;
        i := i + 1;
      }
      start := entry + TAIL;
      if align != 0 {
        start := start + (align - start % align);
      }
      return false, entry, start, |nodes|;
    }

    /** First fit.  `k` is the gap found, or the length of the list.  It halts
        exactly if a page of block and record stays without a frame, and then no
        frame is left.  Nothing is allocated in between exactly if the page tables
        of the block exist. */
    method Alloc(size: nat, align: nat) returns (halted: bool, start: nat, ghost k: nat, ghost given: map<nat, RamPage>)
      requires source.Valid() && Sound() && HasRoom(size, align)
      modifies this, source.pages, source.frames.bytes
      ensures source.Valid() && Backs(source.frames.regions, old(source.Now()), source.Now(), given)
      ensures listStart == old(listStart)
      ensures if halted then tails == old(tails) && nodes == old(nodes)
              else
                && Placed(old(tails), old(nodes), size, align, k, start, tails, nodes)
                && (HeapOk(tails, listStart) <==> RecordFits(old(tails), old(nodes), size, align, k, SCALE))
                && (RecordFits(old(tails), old(nodes), size, align, k, SCALE) ==> Sound())
      ensures old(FirstGap(tails, nodes, size, align, k) && start == Place(nodes[k - 1], align))
      ensures halted <==>
              !Backed(source.Now(), start, start + (if k < |old(nodes)| then SCALE * size else size) + TAIL)
      ensures Meet(given, start, start + (if k < |old(nodes)| then SCALE * size else size) + TAIL)
      ensures halted ==> source.NoFrameLeft()
      ensures !halted ==>
                (old(source.TablesFor(start, start + (if k < |nodes| then SCALE * size else size) + TAIL)) <==>
                 |source.pages.supply| == old(|source.pages.supply|))
    {
      hide Meet, HasRoom, Backs, AllocMem, AllocNodes, FirstGap, RecordFits, Sound, Backed, HasTable, Ready, Backable;
      var found, entry;
      found, entry, start, k := FindPlace(size, align);
      AfterAlloc(size, align, k);
      if found {
        halted, given := PutBefore(entry, start, size, align, k);
      } else {
        halted, given := PutAfter(entry, start, size, align);
      }
      assert !halted ==> (Inv(tails, nodes) && nodes[0] == listStart ==> Sound()) by { InvSound(); }
    }

    lemma InvSound()
      ensures Sound() <==> Inv(tails, nodes) && nodes[0] == listStart
    {
    }

    lemma SoundInv()
      requires Sound()
      ensures Inv(tails, nodes)
    {
    }

    /** What linking the block will mean for the heap. */
    lemma AfterAlloc(size: nat, align: nat, k: nat)
      requires Sound() && FirstGap(tails, nodes, size, align, k)
      ensures var m, ns := AllocMem(tails, nodes, size, align, k, SCALE), AllocNodes(nodes, size, align, k, SCALE);
              && (HeapOk(m, listStart) <==> RecordFits(tails, nodes, size, align, k, SCALE))
              && (RecordFits(tails, nodes, size, align, k, SCALE) ==> Inv(m, ns) && ns[0] == listStart)
    {
      AllocOkIff(tails, nodes, size, align, k, SCALE);
      if RecordFits(tails, nodes, size, align, k, SCALE) { AllocKeepsInv(tails, nodes, size, align, k, SCALE); }
    }

    /** 0 if a block starts at `addr`, the one of node `k`; 1 otherwise. */
    method Free(addr: nat) returns (code: nat, ghost k: nat)
      requires Sound()
      modifies this
      ensures code == 0 <==> exists i :: 0 <= i < |old(nodes)| && At(old(tails), old(nodes)[i]).vaddr == addr
      ensures code == 0 ==> k < |old(nodes)| && At(old(tails), old(nodes)[k]).vaddr == addr
      ensures code == 0 ==> tails == Unlinked(old(tails), old(nodes)[k])
      ensures code == 0 ==> nodes == if k == 0 then old(nodes) else Without(old(nodes), k)
      ensures code == 0 ==> (HeapOk(tails, listStart) <==> k > 0 || |old(nodes)| == 1)
      ensures code == 0 && k > 0 ==> Sound()
      ensures code != 0 ==> code == 1 && tails == old(tails) && nodes == old(nodes) && Sound()
      ensures listStart == old(listStart)
    {
      var entry := listStart;
      k := 0;
      assert LinkedAt(tails, nodes, 0);
      while entry != 0
        invariant k <= |nodes| && (k < |nodes| ==> entry != 0) && entry == if k == |nodes| then 0 else nodes[k]
        invariant forall i :: 0 <= i < k ==> At(tails, nodes[i]).vaddr != addr
        invariant tails == old(tails) && nodes == old(nodes) && listStart == old(listStart)
        decreases |nodes| - k
      {
        EndLinks(tails, nodes, k);
        assert LinkedAt(tails, nodes, k);
        if At(tails, entry).vaddr == addr {
          UnlinkOkIff(tails, nodes, k);
          if k > 0 { UnlinkKeepsInv(tails, nodes, k); }
          tails := SetNext(tails, At(tails, entry).prev, At(tails, entry).next);
          tails := SetPrev(tails, At(tails, entry).next, At(tails, entry).prev);
          nodes := if k == 0 then nodes else Without(nodes, k);
          return 0, k;
        }
        entry := At(tails, entry).next;
        k := k + 1;
      }
      return 1, k;
    }
  }

  /** From `m` and `nodes`, a block of `size` bytes was put at `start`, in gap `k`
      or after the last record. */
  ghost predicate Placed(m: Tails, nodes: seq<nat>, size: nat, align: nat, k: nat, start: nat, m': Tails,
                         nodes': seq<nat>) {
    && FirstGap(m, nodes, size, align, k)
    && start == Place(nodes[k - 1], align)
    && m' == AllocMem(m, nodes, size, align, k, SCALE)
    && nodes' == AllocNodes(nodes, size, align, k, SCALE)
  }

  lemma FirstGapGap(m: Tails, nodes: seq<nat>, size: nat, align: nat, k: nat)
    requires FirstGap(m, nodes, size, align, k) && k < |nodes|
    ensures 1 <= k && Place(nodes[k - 1], align) < At(m, nodes[k]).vaddr
  {
  }

  lemma InsertedIs(m: Tails, entry: nat, at: nat, start: nat)
    ensures Inserted(m, entry, at, start) ==
            var m1 := m[at := Tail(entry, At(m, entry).prev, start)];
            SetPrev(SetNext(m1, At(m1, entry).prev, at), entry, at)
  {
  }

  lemma AtMostLast(m: Tails, nodes: seq<nat>, i: nat)
    requires Inv(m, nodes) && i < |nodes|
    ensures At(m, nodes[i]).vaddr <= nodes[i] <= nodes[|nodes| - 1]
  {
    assert SpacedAt(m, nodes, i);
    if i < |nodes| - 1 { Ordered(m, nodes, i, |nodes| - 1); }
  }
}
