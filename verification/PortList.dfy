/** The list of per-port records (kernel/src/code/disk/ahci.c lines 108-118 and
    218-223). */
module PortList {
  /** A record; `next` is an address, 0 at the end. */
  datatype Record = Record(next: nat, id: nat, cmdList: nat, fis: nat)

  type Records = map<nat, Record>

  function At(m: Records, a: nat): Record {
    if a in m then m[a] else Record(0, 0, 0, 0)
  }

  ghost predicate LinkedAt(m: Records, nodes: seq<nat>, i: nat)
    requires i < |nodes|
  {
    nodes[i] > 0 && At(m, nodes[i]).next == (if i == |nodes| - 1 then 0 else nodes[i + 1])
  }

  /** From `head` the links lead through `nodes` to the end. */
  ghost predicate Chain(m: Records, head: nat, nodes: seq<nat>) {
    && head == (if nodes == [] then 0 else nodes[0])
    && forall i: nat :: i < |nodes| ==> LinkedAt(m, nodes, i)
  }

  /** Some chain starts at `head`: the list ends. */
  ghost predicate Ends(m: Records, head: nat) {
    exists nodes :: Chain(m, head, nodes)
  }

  lemma {:induction false} ChainAgrees(m: Records, head: nat, p: seq<nat>, q: seq<nat>, i: nat)
    requires Chain(m, head, p) && Chain(m, head, q) && i < |p|
    ensures i < |q| && p[i] == q[i]
  {
    assert LinkedAt(m, p, i);
    if i > 0 {
      ChainAgrees(m, head, p, q, i - 1);
      assert LinkedAt(m, p, i - 1) && LinkedAt(m, q, i - 1);
    }
  }

  /** The link is null at the last record only. */
  lemma LastLink(m: Records, head: nat, nodes: seq<nat>, i: nat)
    requires Chain(m, head, nodes) && i < |nodes|
    ensures if At(m, nodes[i]).next == 0 then i == |nodes| - 1
            else i + 1 < |nodes| && At(m, nodes[i]).next == nodes[i + 1]
  {
    assert LinkedAt(m, nodes, i);
    assert i + 1 < |nodes| ==> LinkedAt(m, nodes, i + 1);
  }

  /** No record occurs twice: from equal records the rests would be equal too,
      but one is shorter. */
  lemma {:induction false} NoRepeats(m: Records, nodes: seq<nat>, i: nat, j: nat)
    requires (forall k: nat :: k < |nodes| ==> LinkedAt(m, nodes, k)) && i < j < |nodes|
    ensures nodes[i] != nodes[j]
    decreases |nodes| - j
  {
    assert LinkedAt(m, nodes, i) && LinkedAt(m, nodes, j);
    if j == |nodes| - 1 {
      assert LinkedAt(m, nodes, i + 1);
    } else {
      NoRepeats(m, nodes, i + 1, j + 1);
    }
  }

  /** Lines 109-117. */
  function AppendedHead(head: nat, entry: nat): nat { if head == 0 then entry else head }

  function AppendedRecords(m: Records, nodes: seq<nat>, entry: nat): Records {
    if nodes == [] then m else m[nodes[|nodes| - 1] := At(m, nodes[|nodes| - 1]).(next := entry)]
  }

  /** Appending a record whose own link is null keeps the order and ends the list
      there, exactly if the record is not on the list already. */
  lemma AppendOkIff(m: Records, head: nat, nodes: seq<nat>, entry: nat)
    requires Chain(m, head, nodes) && entry > 0 && At(m, entry).next == 0
    ensures Ends(AppendedRecords(m, nodes, entry), AppendedHead(head, entry)) <==> entry !in nodes
    ensures entry !in nodes ==> Chain(AppendedRecords(m, nodes, entry), AppendedHead(head, entry), nodes + [entry])
  {
    var m', head' := AppendedRecords(m, nodes, entry), AppendedHead(head, entry);
    var n := |nodes|;
    if n > 0 { assert LinkedAt(m, nodes, 0) && LinkedAt(m, nodes, n - 1); }
    if entry !in nodes {
      forall i: nat | i < n + 1 ensures LinkedAt(m', nodes + [entry], i) {
        if i < n {
          assert LinkedAt(m, nodes, i);
          if i < n - 1 { NoRepeats(m, nodes, i, n - 1); }
        }
      }
      assert Chain(m', head', nodes + [entry]);
    } else {
      var k :| 0 <= k < n && nodes[k] == entry;
      assert LinkedAt(m, nodes, k);
      assert k < n - 1 ==> LinkedAt(m, nodes, k + 1);
      assert k == n - 1;
      forall q ensures !Chain(m', head', q) {
        LoopHasNoEnd(m, nodes, q);
      }
    }
  }

  /** With the last record pointing at itself, every chain still runs through
      all the records ... */
  lemma {:induction false} LoopAgrees(m: Records, nodes: seq<nat>, q: seq<nat>, i: nat)
    requires i < |nodes| && Chain(m, nodes[0], nodes)
    requires Chain(AppendedRecords(m, nodes, nodes[|nodes| - 1]), nodes[0], q)
    ensures i < |q| && q[i] == nodes[i]
  {
    var m' := AppendedRecords(m, nodes, nodes[|nodes| - 1]);
    assert LinkedAt(m, nodes, i);
    if i > 0 {
      LoopAgrees(m, nodes, q, i - 1);
      NoRepeats(m, nodes, i - 1, |nodes| - 1);
      assert LinkedAt(m, nodes, i - 1) && LinkedAt(m', q, i - 1);
    }
  }

  /** ... and then on, so there is none. */
  lemma LoopHasNoEnd(m: Records, nodes: seq<nat>, q: seq<nat>)
    requires |nodes| > 0 && Chain(m, nodes[0], nodes)
    ensures !Chain(AppendedRecords(m, nodes, nodes[|nodes| - 1]), nodes[0], q)
  {
    var n := |nodes| - 1;
    var m' := AppendedRecords(m, nodes, nodes[n]);
    if Chain(m', nodes[0], q) {
      LoopAgrees(m, nodes, q, n);
      assert LinkedAt(m', q, n);
      assert n + 1 < |q| && q[n + 1] == q[n];
      NoRepeats(m', q, n, n + 1);
    }
  }

  /** An append changes one link and nothing else of any record. */
  lemma AppendKeepsFields(m: Records, nodes: seq<nat>, entry: nat, a: nat)
    ensures var m' := AppendedRecords(m, nodes, entry);
            && At(m', a).id == At(m, a).id && At(m', a).cmdList == At(m, a).cmdList && At(m', a).fis == At(m, a).fis
            && (a !in nodes ==> At(m', a) == At(m, a))
  {
  }

  /** The records after all of `entries` were appended to an empty list. */
  function AppendedAll(m: Records, entries: seq<nat>): Records {
    if entries == [] then m
    else
      var before := entries[..|entries| - 1];
      AppendedRecords(AppendedAll(m, before), before, entries[|entries| - 1])
  }

  function First(entries: seq<nat>): nat { if entries == [] then 0 else entries[0] }

  ghost predicate Appendable(m: Records, entries: seq<nat>) {
    && (forall i :: 0 <= i < |entries| ==> entries[i] > 0 && At(m, entries[i]).next == 0)
    && (forall i, j :: 0 <= i < j < |entries| ==> entries[i] != entries[j])
  }

  lemma NoneLinked(m: Records)
    ensures Chain(m, 0, [])
  {
  }

  /** Appending distinct records with null links, one after the other, gives the
      list of just those records in that order, each with the fields it had. */
  lemma {:induction false} AppendsInOrder(m: Records, entries: seq<nat>)
    requires Appendable(m, entries)
    ensures Chain(AppendedAll(m, entries), First(entries), entries)
    ensures forall a :: At(AppendedAll(m, entries), a).id == At(m, a).id &&
                        (a !in entries ==> At(AppendedAll(m, entries), a) == At(m, a))
    decreases |entries|
  {
    hide Chain, AppendedRecords;
    if entries == [] {
      NoneLinked(m);
    } else {
      var before, last := entries[..|entries| - 1], entries[|entries| - 1];
      AppendsInOrder(m, before);
      var m1 := AppendedAll(m, before);
      assert last !in before;
      assert At(m1, last) == At(m, last);
      assert First(before) == 0 <==> before == [];
      AppendOkIff(m1, First(before), before, last);
      assert before + [last] == entries;
      forall a
        ensures At(AppendedAll(m, entries), a).id == At(m, a).id
        ensures a !in entries ==> At(AppendedAll(m, entries), a) == At(m, a)
      {
        AppendKeepsFields(m1, before, last, a);
      }
    }
  }

  class List {
    var head: nat
    var records: Records
    ghost var nodes: seq<nat>

    ghost predicate Valid()
      reads this
    {
      Chain(records, head, nodes)
    }

    constructor (records: Records)
      ensures Valid() && nodes == [] && this.records == records
    {
      head, this.records, nodes := 0, records, [];
    }

    /** `ahci_append_to_lin_address_list`. */
    method Append(entry: nat)
      requires Valid() && entry > 0 && At(records, entry).next == 0
      modifies this
      ensures head == AppendedHead(old(head), entry) && records == AppendedRecords(old(records), old(nodes), entry)
      ensures nodes == old(nodes) + [entry]
      ensures Valid() <==> entry !in old(nodes)
      ensures Ends(records, head) <==> entry !in old(nodes)
    {
      AppendOkIff(records, head, nodes, entry);
      assert nodes != [] ==> LinkedAt(records, nodes, 0);
      if head == 0 {
        head := entry;
        nodes := [entry];
        return;
      }
      var current := head;
      ghost var i := 0;
      while At(records, current).next != 0
        invariant i < |nodes| && current == nodes[i]
        invariant head == old(head) && records == old(records) && nodes == old(nodes)
        decreases |nodes| - i
      {
        LastLink(records, head, nodes, i);
        current := At(records, current).next;
        i := i + 1;
      }
      LastLink(records, head, nodes, i);
      records := records[current := At(records, current).(next := entry)];
      nodes := nodes + [entry];
      assert Chain(records, head, nodes) ==> Ends(records, head);
    }

    /** The search of `ahci_port_read`: the earliest record with this id. */
    method Find(id: nat) returns (found: bool, at: nat, ghost i: nat)
      requires Valid()
      ensures found <==> exists j :: 0 <= j < |nodes| && At(records, nodes[j]).id == id
      ensures found ==> i < |nodes| && at == nodes[i] && At(records, at).id == id
      ensures found ==> forall j :: 0 <= j < i ==> At(records, nodes[j]).id != id
    {
      i := 0;
      assert nodes != [] ==> LinkedAt(records, nodes, 0);
      if head == 0 {
        return false, 0, i;
      }
      at := head;
      while At(records, at).id != id
        invariant i < |nodes| && at == nodes[i]
        invariant forall j :: 0 <= j < i ==> At(records, nodes[j]).id != id
        decreases |nodes| - i
      {
        LastLink(records, head, nodes, i);
        if At(records, at).next == 0 {
          return false, 0, i;
        }
        at := At(records, at).next;
        i := i + 1;
      }
      return true, at, i;
    }
  }
}
