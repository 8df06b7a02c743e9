/** A byte table read as bits, least significant bit of each byte first
    (kernel/src/code/mem/palloc.c lines 31-33, 76-82, 113-142, 166-172). */
module Bitmap {
  type Bytes = seq<bv8>

  function ByteBit(b: bv8, j: nat): bool
    requires j < 8
  {
    (b >> j) & 1 == 1
  }

  function Bit(t: Bytes, i: nat): bool
    requires i < 8 * |t|
  {
    ByteBit(t[i / 8], i % 8)
  }

  function Cleared(b: bv8, j: nat): bv8
    requires j < 8
  {
    b & (0xFF ^ ((1 as bv8) << j))
  }

  function Marked(b: bv8, j: nat): bv8
    requires j < 8
  {
    b | ((1 as bv8) << j)
  }

  lemma ClearedBits(b: bv8, j: nat)
    requires j < 8
    ensures forall k :: 0 <= k < 8 ==> ByteBit(Cleared(b, j), k) == (k != j && ByteBit(b, k))
  {
  }

  lemma MarkedBits(b: bv8, j: nat)
    requires j < 8
    ensures forall k :: 0 <= k < 8 ==> ByteBit(Marked(b, j), k) == (k == j || ByteBit(b, k))
  {
  }

  lemma SameBitsSameByte(a: bv8, b: bv8)
    requires forall k :: 0 <= k < 8 ==> ByteBit(a, k) == ByteBit(b, k)
    ensures a == b
  {
    assert ByteBit(a, 0) == ByteBit(b, 0) && ByteBit(a, 1) == ByteBit(b, 1);
    assert ByteBit(a, 2) == ByteBit(b, 2) && ByteBit(a, 3) == ByteBit(b, 3);
    assert ByteBit(a, 4) == ByteBit(b, 4) && ByteBit(a, 5) == ByteBit(b, 5);
    assert ByteBit(a, 6) == ByteBit(b, 6) && ByteBit(a, 7) == ByteBit(b, 7);
  }

  lemma NextShift(b: bv8, j: nat)
    requires j < 8
    ensures (b >> j) >> 1 == b >> (j + 1)
  {
  }

  lemma FullByte(j: nat)
    requires j < 8
    ensures ByteBit(0xFF, j)
  {
  }

  // ---- Runs of bits ----

  ghost predicate AllSet(t: Bytes, lo: nat, n: nat) {
    lo + n <= 8 * |t| && forall i :: lo <= i < lo + n ==> Bit(t, i)
  }

  ghost predicate AllClear(t: Bytes, lo: nat, n: nat) {
    lo + n <= 8 * |t| && forall i :: lo <= i < lo + n ==> !Bit(t, i)
  }

  /** `t'` has the value `v` in the `n` bits from `lo` on and agrees with `t` on
      every other bit. */
  ghost predicate Overwritten(t: Bytes, t': Bytes, lo: nat, n: nat, v: bool) {
    && |t'| == |t| && lo + n <= 8 * |t|
    && forall i :: 0 <= i < 8 * |t| ==> Bit(t', i) == if lo <= i < lo + n then v else Bit(t, i)
  }

  lemma OverwriteOne(t: Bytes, i: nat, v: bool)
    requires i < 8 * |t|
    ensures Overwritten(t, t[i / 8 := if v then Marked(t[i / 8], i % 8) else Cleared(t[i / 8], i % 8)], i, 1, v)
  {
    ClearedBits(t[i / 8], i % 8);
    MarkedBits(t[i / 8], i % 8);
    var t' := t[i / 8 := if v then Marked(t[i / 8], i % 8) else Cleared(t[i / 8], i % 8)];
    forall k | 0 <= k < 8 * |t|
      ensures Bit(t', k) == if i <= k < i + 1 then v else Bit(t, k)
    {
      if k / 8 == i / 8 && k % 8 == i % 8 { assert k == i; }
    }
  }

  lemma OverwriteNext(t: Bytes, t1: Bytes, t2: Bytes, lo: nat, n: nat, v: bool)
    requires Overwritten(t, t1, lo, n, v) && Overwritten(t1, t2, lo + n, 1, v)
    ensures Overwritten(t, t2, lo, n + 1, v)
  {
  }

  /** Bits determine bytes. */
  lemma SameBitsSameBytes(t: Bytes, u: Bytes)
    requires |t| == |u| && forall i :: 0 <= i < 8 * |t| ==> Bit(t, i) == Bit(u, i)
    ensures t == u
  {
    forall k | 0 <= k < |t| ensures t[k] == u[k] {
      forall j | 0 <= j < 8 ensures ByteBit(t[k], j) == ByteBit(u[k], j) {
        var i := 8 * k + j;
        assert i / 8 == k && i % 8 == j;
        assert Bit(t, i) == Bit(u, i);
      }
      SameBitsSameByte(t[k], u[k]);
    }
  }

  /** Setting a cleared run again gives back the same bytes. */
  lemma OverwriteBack(t: Bytes, t1: Bytes, t2: Bytes, lo: nat, n: nat, v: bool)
    requires Overwritten(t, t1, lo, n, v) && Overwritten(t1, t2, lo, n, !v)
    requires if v then AllClear(t, lo, n) else AllSet(t, lo, n)
    ensures t2 == t
  {
    forall i | 0 <= i < 8 * |t| ensures Bit(t2, i) == Bit(t, i) {
      assert Bit(t1, i) == if lo <= i < lo + n then v else Bit(t, i);
    }
    SameBitsSameBytes(t2, t);
  }

  // ---- Counting ----

  function CountBelow(t: Bytes, i: nat): nat
    requires i <= 8 * |t|
  {
    if i == 0 then 0 else CountBelow(t, i - 1) + if Bit(t, i - 1) then 1 else 0
  }

  function Count(t: Bytes): nat { CountBelow(t, 8 * |t|) }

  function Overlap(i: nat, lo: nat, n: nat): nat {
    if i <= lo then 0 else if i <= lo + n then i - lo else n
  }

  lemma {:induction false} CountBelowAfter(t: Bytes, t': Bytes, lo: nat, n: nat, v: bool, i: nat)
    requires Overwritten(t, t', lo, n, v) && i <= 8 * |t|
    requires if v then AllClear(t, lo, n) else AllSet(t, lo, n)
    ensures if v then CountBelow(t', i) == CountBelow(t, i) + Overlap(i, lo, n)
            else CountBelow(t', i) + Overlap(i, lo, n) == CountBelow(t, i)
  {
    if i > 0 {
      CountBelowAfter(t, t', lo, n, v, i - 1);
      assert Bit(t', i - 1) == if lo <= i - 1 < lo + n then v else Bit(t, i - 1);
    }
  }

  /** Clearing a run of set bits lowers the count by its length; setting a run
      of clear bits raises it by its length. */
  lemma CountAfter(t: Bytes, t': Bytes, lo: nat, n: nat, v: bool)
    requires Overwritten(t, t', lo, n, v)
    requires if v then AllClear(t, lo, n) else AllSet(t, lo, n)
    ensures if v then Count(t') == Count(t) + n else Count(t') + n == Count(t)
  {
    CountBelowAfter(t, t', lo, n, v, 8 * |t|);
  }

  // ---- The loops over a run ----

  /** Clears `n` bits, counted from bit `start` of the bytes at `entry` on. */
  method ClearRun(bytes: array<bv8>, entry: nat, start: nat, n: nat)
    requires 8 * entry + start + n <= 8 * bytes.Length
    modifies bytes
    ensures Overwritten(old(bytes[..]), bytes[..], 8 * entry + start, n, false)
  {
    ghost var before := bytes[..];
    for i := 0 to n
      invariant Overwritten(before, bytes[..], 8 * entry + start, i, false)
    {
      ghost var now := bytes[..];
      var bitOffset := (start + i) % 8;
      var byteOffset := (start + i) / 8;
      ghost var k := 8 * entry + start + i;
      assert k / 8 == entry + byteOffset && k % 8 == bitOffset;
      OverwriteOne(now, k, false);
      bytes[entry + byteOffset] := bytes[entry + byteOffset] & (0xFF ^ ((1 as bv8) << bitOffset));
      assert bytes[..] == now[k / 8 := Cleared(now[k / 8], k % 8)];
      OverwriteNext(before, now, bytes[..], 8 * entry + start, i, false);
    }
  }

  /** Sets `n` bits, counted from bit `start` of the bytes at `entry` on. */
  method SetRun(bytes: array<bv8>, entry: nat, start: nat, n: nat)
    requires 8 * entry + start + n <= 8 * bytes.Length
    modifies bytes
    ensures Overwritten(old(bytes[..]), bytes[..], 8 * entry + start, n, true)
  {
    ghost var before := bytes[..];
    for i := 0 to n
      invariant Overwritten(before, bytes[..], 8 * entry + start, i, true)
    {
      ghost var now := bytes[..];
      var bitOffset := (start + i) % 8;
      var byteOffset := (start + i) / 8;
      ghost var k := 8 * entry + start + i;
      assert k / 8 == entry + byteOffset && k % 8 == bitOffset;
      OverwriteOne(now, k, true);
      bytes[entry + byteOffset] := bytes[entry + byteOffset] | ((1 as bv8) << bitOffset);
      assert bytes[..] == now[k / 8 := Marked(now[k / 8], k % 8)];
      OverwriteNext(before, now, bytes[..], 8 * entry + start, i, true);
    }
  }
}
