/** The heap's list of tail records (kernel/src/code/mem/alloc.c lines 11-121):
    what one insertion, append or removal stores, and what it keeps. */
module HeapList {
  import opened Division

  /** `sizeof(struct MEM_ALLOC_TAIL)`. */
  const TAIL := 24

  /** A record; 0 is the null pointer. */
  datatype Tail = Tail(next: nat, prev: nat, vaddr: nat)

  /** Records by address.  Address 0 holds one too: the code writes there. */
  type Tails = map<nat, Tail>

  function At(m: Tails, a: nat): Tail {
    if a in m then m[a] else Tail(0, 0, 0)
  }

  // ---- The list ----

  /** Node `i` points at its neighbours, and past the ends at null. */
  ghost predicate LinkedAt(m: Tails, nodes: seq<nat>, i: nat)
    requires i < |nodes|
  {
    && nodes[i] > 0
    && At(m, nodes[i]).prev == (if i == 0 then 0 else nodes[i - 1])
    && At(m, nodes[i]).next == (if i == |nodes| - 1 then 0 else nodes[i + 1])
  }

  ghost predicate Chain(m: Tails, nodes: seq<nat>) {
    |nodes| > 0 && forall i: nat :: i < |nodes| ==> LinkedAt(m, nodes, i)
  }

  /** Block `i`, with the record at its end, lies after its predecessor. */
  ghost predicate SpacedAt(m: Tails, nodes: seq<nat>, i: nat)
    requires i < |nodes|
  {
    && At(m, nodes[i]).vaddr <= nodes[i]
    && (i > 0 ==> nodes[i - 1] + TAIL <= At(m, nodes[i]).vaddr)
  }

  ghost predicate Spaced(m: Tails, nodes: seq<nat>) {
    forall i: nat :: i < |nodes| ==> SpacedAt(m, nodes, i)
  }

  ghost predicate Inv(m: Tails, nodes: seq<nat>) {
    Chain(m, nodes) && Spaced(m, nodes)
  }

  /** Some list from `head` on satisfies the invariant. */
  ghost predicate HeapOk(m: Tails, head: nat) {
    exists nodes :: Inv(m, nodes) && nodes[0] == head
  }

  /** The links are null at the ends of the list only. */
  lemma EndLinks(m: Tails, nodes: seq<nat>, i: nat)
    requires Chain(m, nodes) && i < |nodes|
    ensures if At(m, nodes[i]).next == 0 then i == |nodes| - 1
            else i + 1 < |nodes| && At(m, nodes[i]).next == nodes[i + 1]
    ensures if At(m, nodes[i]).prev == 0 then i == 0 else i > 0 && At(m, nodes[i]).prev == nodes[i - 1]
    ensures nodes[i] != 0
  {
    assert LinkedAt(m, nodes, i);
    assert i + 1 < |nodes| ==> LinkedAt(m, nodes, i + 1);
    assert i > 0 ==> LinkedAt(m, nodes, i - 1);
  }

  /** Blocks and records come in address order. */
  lemma {:induction false} Ordered(m: Tails, nodes: seq<nat>, i: nat, j: nat)
    requires Inv(m, nodes) && i < j < |nodes|
    ensures nodes[i] + TAIL <= At(m, nodes[j]).vaddr <= nodes[j]
    decreases j - i
  {
    assert SpacedAt(m, nodes, j);
    if i + 1 < j {
      Ordered(m, nodes, i, j - 1);
      assert SpacedAt(m, nodes, j - 1);
    }
  }

  /** So no two of them overlap, and no node occurs twice. */
  lemma BlocksDisjoint(m: Tails, nodes: seq<nat>)
    requires Inv(m, nodes)
    ensures forall i, j :: 0 <= i < j < |nodes| ==> nodes[i] + TAIL <= At(m, nodes[j]).vaddr && nodes[i] < nodes[j]
  {
    forall i, j | 0 <= i < j < |nodes|
      ensures nodes[i] + TAIL <= At(m, nodes[j]).vaddr && nodes[i] < nodes[j]
    {
      Ordered(m, nodes, i, j);
    }
  }

  /** The links determine the list. */
  lemma {:induction false} ChainAgrees(m: Tails, p: seq<nat>, q: seq<nat>, i: nat)
    requires Chain(m, p) && Chain(m, q) && p[0] == q[0]
    requires i < |p|
    ensures i < |q| && p[i] == q[i]
  {
    if i > 0 {
      ChainAgrees(m, p, q, i - 1);
      assert LinkedAt(m, p, i - 1) && LinkedAt(m, q, i - 1) && LinkedAt(m, p, i);
    }
  }

  lemma ChainUnique(m: Tails, p: seq<nat>, q: seq<nat>)
    requires Chain(m, p) && Chain(m, q) && p[0] == q[0]
    ensures p == q
  {
    ChainAgrees(m, p, q, |p| - 1);
    ChainAgrees(m, q, p, |q| - 1);
    forall i | 0 <= i < |p| ensures p[i] == q[i] { ChainAgrees(m, p, q, i); }
  }

  // ---- Where a block goes ----

  /** First address after the record at `prev` that `align` allows; an address
      that is aligned already still moves on by `align`. */
  function Place(prev: nat, align: nat): nat {
    var s := prev + TAIL;
    if align != 0 then s + (align - s % align) else s
  }

  /** The result is a multiple of `align`, past the record's end by at least one
      byte and at most `align`; without alignment it is the record's end. */
  lemma PlaceIsAligned(prev: nat, align: nat)
    ensures align == 0 ==> Place(prev, align) == prev + TAIL
    ensures align != 0 ==> Place(prev, align) % align == 0 && prev + TAIL < Place(prev, align) <= prev + TAIL + align
  {
    if align != 0 { RoundUp(prev + TAIL, align); }
  }

  /** The check of lines 61-63 before node `i`. */
  ghost predicate GapFits(m: Tails, nodes: seq<nat>, size: nat, align: nat, i: nat) {
    && 1 <= i < |nodes|
    && Place(nodes[i - 1], align) < At(m, nodes[i]).vaddr
    && size + TAIL <= At(m, nodes[i]).vaddr - Place(nodes[i - 1], align)
  }

  /** With alignment a gap fits exactly if some multiple of it past the record
      leaves room for the block and its record; without, if they fit behind it. */
  lemma GapFitsIff(m: Tails, nodes: seq<nat>, size: nat, align: nat, i: nat)
    requires 1 <= i < |nodes|
    ensures align != 0 ==>
              (GapFits(m, nodes, size, align, i) <==>
               exists s: nat ::
                 s % align == 0 && nodes[i - 1] + TAIL < s && s + size + TAIL <= At(m, nodes[i]).vaddr)
    ensures GapFits(m, nodes, size, 0, i) <==> nodes[i - 1] + TAIL + size + TAIL <= At(m, nodes[i]).vaddr
  {
    PlaceIsAligned(nodes[i - 1], align);
    var p := Place(nodes[i - 1], align);
    if align != 0 {
      if GapFits(m, nodes, size, align, i) { assert p % align == 0; }
      forall s: nat | s % align == 0 && nodes[i - 1] + TAIL < s && s + size + TAIL <= At(m, nodes[i]).vaddr
        ensures GapFits(m, nodes, size, align, i)
      {
        if s < p { MultiplesApart(s, p, align); }
      }
    }
  }

  /** `k` is the first gap that fits, or `|nodes|` if none does. */
  ghost predicate FirstGap(m: Tails, nodes: seq<nat>, size: nat, align: nat, k: nat) {
    && 1 <= k <= |nodes|
    && (k < |nodes| ==> GapFits(m, nodes, size, align, k))
    && (forall i: nat :: i < k ==> !GapFits(m, nodes, size, align, i))
  }

  // ---- The stores ----

  function SetNext(m: Tails, a: nat, x: nat): Tails { m[a := At(m, a).(next := x)] }

  function SetPrev(m: Tails, a: nat, x: nat): Tails { m[a := At(m, a).(prev := x)] }

  /** Lines 68-73: the record at `at` goes before `entry`. */
  function Inserted(m: Tails, entry: nat, at: nat, start: nat): Tails {
    var m1 := m[at := Tail(entry, At(m, entry).prev, start)];
    var m2 := SetNext(m1, At(m1, entry).prev, at);
    SetPrev(m2, entry, at)
  }

  /** Lines 97-101: the record at `at` goes after `entry`. */
  function Appended(m: Tails, entry: nat, at: nat, start: nat): Tails {
    SetNext(m[at := Tail(0, entry, start)], entry, at)
  }

  /** Lines 112-113. */
  function Unlinked(m: Tails, entry: nat): Tails {
    var m1 := SetNext(m, At(m, entry).prev, At(m, entry).next);
    SetPrev(m1, At(m1, entry).next, At(m1, entry).prev)
  }

  function With(nodes: seq<nat>, k: nat, at: nat): seq<nat>
    requires k <= |nodes|
  {
    nodes[..k] + [at] + nodes[k..]
  }

  function Without(nodes: seq<nat>, k: nat): seq<nat>
    requires k < |nodes|
  {
    nodes[..k] + nodes[k + 1..]
  }

  // ---- Insertion ----

  /** The new record, and what becomes of the old ones. */
  lemma InsertedRecords(m: Tails, nodes: seq<nat>, k: nat, at: nat, start: nat)
    requires Inv(m, nodes) && 1 <= k < |nodes| && nodes[k - 1] < at < nodes[k]
    ensures var m' := Inserted(m, nodes[k], at, start);
            && At(m', at) == Tail(nodes[k], nodes[k - 1], start)
            && (forall i: nat :: i < |nodes| && i != k && i != k - 1 ==> At(m', nodes[i]) == At(m, nodes[i]))
            && At(m', nodes[k]) == At(m, nodes[k]).(prev := at)
            && At(m', nodes[k - 1]) == At(m, nodes[k - 1]).(next := at)
            && (forall a :: a != at && a != nodes[k] && a != nodes[k - 1] ==> At(m', a) == At(m, a))
  {
    BlocksDisjoint(m, nodes);
    assert LinkedAt(m, nodes, k);
  }

  /** A record that ends before the next block keeps the invariant. */
  lemma InsertKeepsInv(m: Tails, nodes: seq<nat>, k: nat, at: nat, start: nat)
    requires Inv(m, nodes) && 1 <= k < |nodes|
    requires nodes[k - 1] + TAIL <= start <= at && at + TAIL <= At(m, nodes[k]).vaddr
    ensures Inv(Inserted(m, nodes[k], at, start), With(nodes, k, at))
  {
    hide Inserted;
    var m', ns := Inserted(m, nodes[k], at, start), With(nodes, k, at);
    assert SpacedAt(m, nodes, k);
    InsertedRecords(m, nodes, k, at, start);
    forall i: nat | i < |ns| ensures LinkedAt(m', ns, i) && SpacedAt(m', ns, i) {
      if i != k {
        var o := if i < k then i else i - 1;
        assert ns[i] == nodes[o] && LinkedAt(m, nodes, o) && SpacedAt(m, nodes, o);
      }
    }
  }

  /** Records before node `k - 1` are not touched, so a list in the new memory
      starts like the old one and then runs through the new record. */
  lemma {:induction false} InsertedPrefix(m: Tails, nodes: seq<nat>, k: nat, at: nat, start: nat, q: seq<nat>, i: nat)
    requires Inv(m, nodes) && 1 <= k < |nodes| && at > 0 && at !in nodes[..k - 1]
    requires Chain(Inserted(m, nodes[k], at, start), q) && q[0] == nodes[0] && i < k
    ensures i + 1 < |q| && q[i] == nodes[i] && (i == k - 1 ==> q[i + 1] == at)
  {
    var m' := Inserted(m, nodes[k], at, start);
    BlocksDisjoint(m, nodes);
    if i > 0 { InsertedPrefix(m, nodes, k, at, start, q, i - 1); }
    assert LinkedAt(m, nodes, i) && LinkedAt(m, nodes, k) && LinkedAt(m', q, i);
    if i > 0 {
      assert nodes[..k - 1][i - 1] == nodes[i - 1];
      assert LinkedAt(m, nodes, i - 1) && LinkedAt(m', q, i - 1);
    }
  }

  /** The insertion keeps the heap sound exactly if the record ends before the
      next block. */
  lemma InsertOkIff(m: Tails, nodes: seq<nat>, k: nat, at: nat, start: nat)
    requires Inv(m, nodes) && 1 <= k < |nodes|
    requires nodes[k - 1] + TAIL <= start <= at && start < At(m, nodes[k]).vaddr
    ensures HeapOk(Inserted(m, nodes[k], at, start), nodes[0]) <==> at + TAIL <= At(m, nodes[k]).vaddr
  {
    var m' := Inserted(m, nodes[k], at, start);
    if at + TAIL <= At(m, nodes[k]).vaddr {
      InsertKeepsInv(m, nodes, k, at, start);
      assert With(nodes, k, at)[0] == nodes[0];
    }
    BlocksDisjoint(m, nodes);
    forall q | Inv(m', q) && q[0] == nodes[0] ensures at + TAIL <= At(m, nodes[k]).vaddr {
      InsertedPrefix(m, nodes, k, at, start, q, k - 1);
      assert LinkedAt(m', q, k) && LinkedAt(m, nodes, k);
      assert At(m', at).next == nodes[k];
      assert q[k + 1] == nodes[k];
      assert SpacedAt(m', q, k + 1);
    }
  }

  // ---- Append ----

  /** Appending after the last record always keeps the invariant. */
  lemma AppendKeepsInv(m: Tails, nodes: seq<nat>, at: nat, start: nat)
    requires Inv(m, nodes) && nodes[|nodes| - 1] + TAIL <= start <= at
    ensures Inv(Appended(m, nodes[|nodes| - 1], at, start), nodes + [at])
  {
    BlocksDisjoint(m, nodes);
    var n := |nodes|;
    var m', ns := Appended(m, nodes[n - 1], at, start), nodes + [at];
    assert At(m', nodes[n - 1]) == At(m, nodes[n - 1]).(next := at);
    forall i: nat | i < |ns| ensures LinkedAt(m', ns, i) && SpacedAt(m', ns, i) {
      if i < n {
        assert LinkedAt(m, nodes, i) && SpacedAt(m, nodes, i);
        assert i < n - 1 ==> At(m', nodes[i]) == At(m, nodes[i]);
      }
    }
  }

  /** It stores the new record and one link. */
  lemma AppendStores(m: Tails, nodes: seq<nat>, at: nat, start: nat)
    requires Inv(m, nodes) && nodes[|nodes| - 1] < at
    ensures var last := nodes[|nodes| - 1];
            var m' := Appended(m, last, at, start);
            && At(m', at) == Tail(0, last, start) && At(m', last) == At(m, last).(next := at)
            && forall a :: a != at && a != last ==> At(m', a) == At(m, a)
  {
  }

  // ---- Removal ----

  /** Removing any node but the first keeps the invariant. */
  lemma UnlinkKeepsInv(m: Tails, nodes: seq<nat>, k: nat)
    requires Inv(m, nodes) && 1 <= k < |nodes|
    ensures Inv(Unlinked(m, nodes[k]), Without(nodes, k))
  {
    BlocksDisjoint(m, nodes);
    var m', ns := Unlinked(m, nodes[k]), Without(nodes, k);
    assert LinkedAt(m, nodes, k) && SpacedAt(m, nodes, k);
    forall i: nat | i < |ns| ensures LinkedAt(m', ns, i) && SpacedAt(m', ns, i) {
      var o := if i < k then i else i + 1;
      assert ns[i] == nodes[o] && LinkedAt(m, nodes, o) && SpacedAt(m, nodes, o);
      assert At(m', nodes[o]).vaddr == At(m, nodes[o]).vaddr;
      assert o != k - 1 ==> At(m', nodes[o]).next == At(m, nodes[o]).next;
      assert o != k + 1 ==> At(m', nodes[o]).prev == At(m, nodes[o]).prev;
    }
  }

  lemma BackLink(m: Tails, q: seq<nat>)
    requires Chain(m, q) && At(m, q[0]).next != 0
    ensures q[0] != 0 && At(m, At(m, q[0]).next).prev == q[0]
  {
    assert LinkedAt(m, q, 0);
    assert |q| > 1 ==> LinkedAt(m, q, 1);
  }

  /** The first record has no predecessor: with others behind it, its removal
      cuts the second record's back link and takes nothing off the list. */
  lemma UnlinkHead(m: Tails, nodes: seq<nat>)
    requires Inv(m, nodes)
    ensures HeapOk(Unlinked(m, nodes[0]), nodes[0]) <==> |nodes| == 1
  {
    BlocksDisjoint(m, nodes);
    var m' := Unlinked(m, nodes[0]);
    assert LinkedAt(m, nodes, 0) && SpacedAt(m, nodes, 0);
    if |nodes| == 1 {
      assert LinkedAt(m', nodes, 0) && SpacedAt(m', nodes, 0);
      assert Inv(m', nodes);
    } else {
      assert LinkedAt(m, nodes, 1);
      assert At(m', nodes[0]).next == nodes[1] && At(m', nodes[1]).prev == 0;
      forall q | Inv(m', q) && q[0] == nodes[0] ensures false {
        BackLink(m', q);
      }
    }
  }

  /** Removing node `k` keeps the heap sound exactly if `k` is not the first of
      several. */
  lemma UnlinkOkIff(m: Tails, nodes: seq<nat>, k: nat)
    requires Inv(m, nodes) && k < |nodes|
    ensures HeapOk(Unlinked(m, nodes[k]), nodes[0]) <==> k > 0 || |nodes| == 1
  {
    if k == 0 {
      UnlinkHead(m, nodes);
    } else {
      UnlinkKeepsInv(m, nodes, k);
      assert Without(nodes, k)[0] == nodes[0];
    }
  }

  /** The removal stores the neighbours' two links, where the null pointer stands
      in for a neighbour that is missing, and nothing else. */
  lemma UnlinkStores(m: Tails, nodes: seq<nat>, k: nat, a: nat)
    requires Inv(m, nodes) && k < |nodes|
    ensures var before, after := if k > 0 then nodes[k - 1] else 0, if k < |nodes| - 1 then nodes[k + 1] else 0;
            var r := At(m, a);
            At(Unlinked(m, nodes[k]), a) ==
            r.(next := if a == before then after else r.next, prev := if a == after then before else r.prev)
  {
    assert LinkedAt(m, nodes, k);
    if k > 0 { assert LinkedAt(m, nodes, k - 1); }
    if k < |nodes| - 1 { assert LinkedAt(m, nodes, k + 1); }
    BlocksDisjoint(m, nodes);
  }

  /** The removal stores through a null pointer at either end of the list and
      nowhere else. */
  lemma UnlinkNullStores(m: Tails, nodes: seq<nat>, k: nat)
    requires Inv(m, nodes) && k < |nodes|
    ensures 0 in Unlinked(m, nodes[k]) <==> 0 in m || k == 0 || k == |nodes| - 1
    ensures 0 < k < |nodes| - 1 ==> At(Unlinked(m, nodes[k]), 0) == At(m, 0)
  {
    assert LinkedAt(m, nodes, k);
    if k > 0 { assert LinkedAt(m, nodes, k - 1); }
    if k < |nodes| - 1 { assert LinkedAt(m, nodes, k + 1); }
    BlocksDisjoint(m, nodes);
  }

  // ---- What one call undoes ----

  /** Removing the record just inserted restores every other record, so the old
      list is back. */
  lemma InsertThenUnlink(m: Tails, nodes: seq<nat>, k: nat, at: nat, start: nat)
    requires Inv(m, nodes) && 1 <= k < |nodes|
    requires nodes[k - 1] + TAIL <= start <= at && at + TAIL <= At(m, nodes[k]).vaddr
    ensures var m' := Unlinked(Inserted(m, nodes[k], at, start), at);
            (forall a :: a != at ==> At(m', a) == At(m, a)) && Inv(m', nodes)
  {
    BlocksDisjoint(m, nodes);
    assert LinkedAt(m, nodes, k) && LinkedAt(m, nodes, k - 1) && SpacedAt(m, nodes, k);
    var m1 := Inserted(m, nodes[k], at, start);
    assert At(m1, at) == Tail(nodes[k], nodes[k - 1], start);
    var m' := Unlinked(m1, at);
    forall a | a != at ensures At(m', a) == At(m, a) {}
    forall i: nat | i < |nodes| ensures LinkedAt(m', nodes, i) && SpacedAt(m', nodes, i) {
      assert LinkedAt(m, nodes, i) && SpacedAt(m, nodes, i);
      assert nodes[i] != at;
    }
  }

  /** Block starts increase, so an address names at most one block. */
  lemma StartsDiffer(m: Tails, nodes: seq<nat>, i: nat, j: nat)
    requires Inv(m, nodes) && i < |nodes| && j < |nodes| && At(m, nodes[i]).vaddr == At(m, nodes[j]).vaddr
    ensures i == j
  {
    assert SpacedAt(m, nodes, i) && SpacedAt(m, nodes, j);
    if i < j { Ordered(m, nodes, i, j); }
    if j < i { Ordered(m, nodes, j, i); }
  }

  /** The gap an interior block of at least `size` bytes leaves takes `size`
      bytes again, at or below the block's old start. */
  lemma FreedGapIsReused(m: Tails, nodes: seq<nat>, k: nat, size: nat, j: nat)
    requires Inv(m, nodes) && 1 <= k < |nodes| - 1
    requires At(m, nodes[k]).vaddr + size <= nodes[k]
    requires FirstGap(Unlinked(m, nodes[k]), Without(nodes, k), size, 0, j)
    ensures j <= k && Place(Without(nodes, k)[j - 1], 0) <= At(m, nodes[k]).vaddr
  {
    var m', ns := Unlinked(m, nodes[k]), Without(nodes, k);
    UnlinkKeepsInv(m, nodes, k);
    BlocksDisjoint(m, nodes);
    assert LinkedAt(m, nodes, k) && SpacedAt(m, nodes, k) && SpacedAt(m, nodes, k + 1);
    assert ns[k] == nodes[k + 1] && ns[k - 1] == nodes[k - 1];
    assert At(m', ns[k]).vaddr == At(m, nodes[k + 1]).vaddr;
    assert GapFits(m', ns, size, 0, k);
    if j < k { BlocksDisjoint(m', ns); }
  }
}
