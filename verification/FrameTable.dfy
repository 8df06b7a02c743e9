/** The page-frame allocator: one table byte holds the state of eight pages of
    one RAM entry, 1 meaning free (kernel/src/code/mem/palloc.c lines 31-178). */
module FrameTable {
  import opened Bitmap
  import opened MemoryMap
  import opened Options

  // ---- What the scan looks for ----

  /** The `n` bits from `s` on, counted from bit `base`, are set. */
  ghost predicate RunAt(t: Bytes, base: nat, s: nat, n: nat) {
    AllSet(t, base + s, n)
  }

  /** Pages `s..s+n` of entry `k` are free and within the part the scan covers. */
  ghost predicate Fits(regions: seq<Region>, t: Bytes, n: nat, k: nat, s: nat)
    requires k < |regions|
  {
    && n >= 1 && regions[k].kind == RAM && s + n <= Scanned(regions[k])
    && RunAt(t, 8 * Offset(regions, k), s, n)
  }

  ghost predicate NoFitBelow(regions: seq<Region>, t: Bytes, n: nat, k: nat)
    requires k <= |regions|
  {
    forall j, s: nat :: 0 <= j < k ==> !Fits(regions, t, n, j, s)
  }

  /** The earliest run in the first entry that has one. */
  ghost predicate FirstFit(regions: seq<Region>, t: Bytes, n: nat, k: nat, s: nat) {
    && k < |regions|
    && Fits(regions, t, n, k, s)
    && NoFitBelow(regions, t, n, k)
    && forall s': nat :: s' < s ==> !Fits(regions, t, n, k, s')
  }

  function AddressOf(regions: seq<Region>, k: nat, s: nat): nat
    requires k < |regions|
  {
    regions[k].base + 0x1000 * s
  }

  /** What one call of `mem_palloc(&addr, n)` does to the table. */
  ghost predicate AllocStep(regions: seq<Region>, t: Bytes, t': Bytes, n: nat, code: nat, addr: nat, k: nat, s: nat) {
    if code == 0 then
      && FirstFit(regions, t, n, k, s)
      && addr == AddressOf(regions, k, s)
      && Overwritten(t, t', 8 * Offset(regions, k) + s, n, false)
    else
      code == 1 && t' == t && NoFitBelow(regions, t, n, |regions|)
  }

  // ---- Where a freed range lands ----

  const U64 := 0x1_0000_0000_0000_0000

  /** The check of line 164; its 64-bit sum may wrap around. */
  predicate Contains(r: Region, addr: nat, n: nat) {
    r.kind == RAM && r.base <= addr && (addr + n * 0x1000) % U64 <= r.base + Pages(r) * 0x1000
  }

  /** The first entry from `k` on that holds the range, or `|regions|`. */
  function FindRegion(regions: seq<Region>, addr: nat, n: nat, k: nat): (r: nat)
    requires k <= |regions|
    ensures k <= r <= |regions|
    ensures r < |regions| ==> Contains(regions[r], addr, n)
    ensures forall j :: k <= j < r ==> !Contains(regions[j], addr, n)
    decreases |regions| - k
  {
    if k == |regions| then k
    else if Contains(regions[k], addr, n) then k
    else FindRegion(regions, addr, n, k + 1)
  }

  function FreeOffset(regions: seq<Region>, addr: nat, n: nat): nat
    requires FindRegion(regions, addr, n, 0) < |regions|
  {
    var k := FindRegion(regions, addr, n, 0);
    8 * Offset(regions, k) + (addr - regions[k].base) / 0x1000
  }

  /** The modelled memory reaches as far as the bits the call writes, and their
      numbers fit the `int` variables of the loop. */
  ghost predicate FreeInBounds(regions: seq<Region>, t: Bytes, addr: nat, n: nat) {
    FindRegion(regions, addr, n, 0) < |regions| ==>
      && FreeOffset(regions, addr, n) + n <= 8 * |t|
      && n < 0x8000_0000
      && (addr - regions[FindRegion(regions, addr, n, 0)].base) / 0x1000 + n < 8 * 0x8000_0000
  }

  /** What one call of `mem_pfree(addr, n)` does to the table. */
  ghost predicate FreeStep(regions: seq<Region>, t: Bytes, t': Bytes, addr: nat, n: nat, code: nat) {
    if FindRegion(regions, addr, n, 0) < |regions| then
      code == 0 && Overwritten(t, t', FreeOffset(regions, addr, n), n, true)
    else
      code == 1 && t' == t
  }

  // ---- Where the kernel lies ----

  predicate Spans(r: Region, first: nat, end: nat) {
    r.kind == RAM && r.base <= first && r.base + r.length >= end
  }

  /** The first entry from `k` on that spans the kernel, or `|regions|`. */
  function KernelRegion(regions: seq<Region>, first: nat, end: nat, k: nat): (r: nat)
    requires k <= |regions|
    ensures k <= r <= |regions|
    ensures r < |regions| ==> Spans(regions[r], first, end)
    ensures forall j :: k <= j < r ==> !Spans(regions[j], first, end)
    decreases |regions| - k
  {
    if k == |regions| then k
    else if Spans(regions[k], first, end) then k
    else KernelRegion(regions, first, end, k + 1)
  }

  function KernelOffset(regions: seq<Region>, first: nat, end: nat): nat
    requires KernelRegion(regions, first, end, 0) < |regions|
  {
    var k := KernelRegion(regions, first, end, 0);
    8 * Offset(regions, k) + (first - regions[k].base) / 0x1000
  }

  /** The kernel's end after the table, rounded up by at least one byte. */
  function EndWithTable(kernelEnd: nat, size: nat): nat {
    var e := kernelEnd + size + 1;
    e + (0x1000 - e % 0x1000)
  }

  // ---- The scan of one entry ----

  /** After `pos` bits: the last `amount` of them are set, the bit before those
      is not, and no run of `n` ended earlier. */
  ghost predicate Scanning(t: Bytes, base: nat, n: nat, pos: nat, start: nat, amount: nat) {
    && start + amount == pos
    && RunAt(t, base, start, amount)
    && (start > 0 ==> !Bit(t, base + start - 1))
    && (n == 0 || amount < n)
    && forall s: nat :: n >= 1 && s + n <= pos ==> !RunAt(t, base, s, n)
  }

  lemma ScanStart(t: Bytes, base: nat, n: nat)
    requires base <= 8 * |t|
    ensures Scanning(t, base, n, 0, 0, 0)
  {
  }

  lemma ScanEnd(t: Bytes, base: nat, n: nat, pos: nat, start: nat, amount: nat)
    requires Scanning(t, base, n, pos, start, amount)
    ensures forall s: nat :: n >= 1 && s + n <= pos ==> !RunAt(t, base, s, n)
  {
  }

  lemma ScanHit(t: Bytes, base: nat, n: nat, pos: nat, start: nat, amount: nat)
    requires Scanning(t, base, n, pos, start, amount) && base + pos < 8 * |t| && Bit(t, base + pos)
    ensures RunAt(t, base, start, amount + 1) && start + amount == pos
    ensures forall s: nat :: n >= 1 && s + n <= pos + 1 && s < start ==> !RunAt(t, base, s, n)
    ensures amount + 1 != n ==> Scanning(t, base, n, pos + 1, start, amount + 1)
  {
    forall s: nat | n >= 1 && s + n <= pos + 1 && s < start
      ensures !RunAt(t, base, s, n)
    {
      if s + n == pos + 1 {
        assert base + s <= base + start - 1 < base + s + n;
      }
    }
  }

  lemma ScanMiss(t: Bytes, base: nat, n: nat, pos: nat, start: nat, amount: nat)
    requires Scanning(t, base, n, pos, start, amount) && base + pos < 8 * |t| && !Bit(t, base + pos)
    ensures Scanning(t, base, n, pos + 1, pos + 1, 0)
  {
    forall s: nat | n >= 1 && s + n <= pos + 1
      ensures !RunAt(t, base, s, n)
    {
      if s + n == pos + 1 {
        assert base + s <= base + pos < base + s + n;
      }
    }
  }

  /** The lowest bit of the shifted byte is the next bit of the table. */
  lemma ScanBit(t: Bytes, entry: nat, byteIndex: nat, bitIndex: nat, byte: bv8)
    requires entry + byteIndex < |t| && bitIndex < 8 && byte == t[entry + byteIndex] >> bitIndex
    ensures Bit(t, 8 * entry + (8 * byteIndex + bitIndex)) <==> byte & 1 == 1
    ensures byte >> 1 == t[entry + byteIndex] >> (bitIndex + 1)
  {
    var pos := 8 * byteIndex + bitIndex;
    assert (8 * entry + pos) / 8 == entry + byteIndex && (8 * entry + pos) % 8 == bitIndex;
    NextShift(t[entry + byteIndex], bitIndex);
  }

  class FrameAllocator {
    const regions: seq<Region>
    /** The memory from `mem_palloc_start` on: the table, and whatever follows it
        up to the last byte the walks reach. */
    const bytes: array<bv8>

    ghost predicate Valid() {
      WellFormed(regions) && Offset(regions, |regions|) <= bytes.Length
    }

    /** Lines 36-55: sizes the table and marks every page free. */
    constructor (regions: seq<Region>, memory: array<bv8>)
      requires WellFormed(regions) && TableSize(regions) <= memory.Length && Offset(regions, |regions|) <= memory.Length
      modifies memory
      ensures Valid() && bytes == memory && this.regions == regions
      ensures AllSet(bytes[..], 0, 8 * TableSize(regions))
      ensures bytes[TableSize(regions)..] == old(memory[TableSize(regions)..])
    {
      var ram, i := 0, 0;
      while i < |regions| - 1
        invariant 0 <= i <= |regions| && (|regions| > 0 ==> i <= |regions| - 1) && ram == RamBelow(regions, i)
      {
        if regions[i].kind == RAM { ram := ram + regions[i].length; }
        i := i + 1;
      }
      var size := ram / 0x1000 / 8;
      for b := 0 to size
        invariant forall j :: 0 <= j < b ==> memory[j] == 0xFF
        invariant memory[size..] == old(memory[size..])
      {
        memory[b] := 0xFF;
      }
      this.regions := regions;
      bytes := memory;
      new;
      forall i | 0 <= i < 8 * size ensures Bit(bytes[..], i) {
        FullByte(i % 8);
      }
    }

    /** The modelled memory reaches as far as the kernel's bits. */
    ghost predicate KernelInBounds(first: nat, end: nat, n: nat) {
      KernelRegion(regions, first, end, 0) < |regions| ==> KernelOffset(regions, first, end) + n <= 8 * bytes.Length
    }

    /** Lines 46-92: moves the kernel's end past the table and takes the pages
        from its start to the new end.  `trace` is the page lookup. */
    method ReserveKernel(kernelStart: nat, kernelEnd: nat, trace: nat -> Option<nat>) returns (halted: bool, end: nat)
      requires Valid() && kernelStart <= kernelEnd
      requires var e := EndWithTable(kernelEnd, TableSize(regions));
               trace(kernelStart).Some? && trace(e).Some? ==>
                 KernelInBounds(trace(kernelStart).value, trace(e).value, (e - kernelStart) / 0x1000)
      modifies bytes
      ensures end == EndWithTable(kernelEnd, TableSize(regions))
      ensures end % 0x1000 == 0 && kernelEnd + TableSize(regions) + 1 < end <= kernelEnd + TableSize(regions) + 0x1001
      ensures halted <==>
              || trace(kernelStart) == None
              || trace(end) == None
              || forall r :: r in regions && r.kind == RAM ==>
                   trace(kernelStart).value < r.base || r.base + r.length < trace(end).value
      ensures halted ==> bytes[..] == old(bytes[..])
      ensures !halted ==>
                KernelRegion(regions, trace(kernelStart).value, trace(end).value, 0) < |regions|
      ensures !halted ==>
                Overwritten(old(bytes[..]), bytes[..],
                            KernelOffset(regions, trace(kernelStart).value, trace(end).value),
                            (end - kernelStart) / 0x1000, false)
    {
      var size := TableSize(regions);
      end := kernelEnd + size + 1;
      var overflow := end % 0x1000;
      end := end + (0x1000 - overflow);
      var numberOfPages := (end - kernelStart) / 0x1000;
      var first, last := trace(kernelStart), trace(end);
      if first == None || last == None {
        return true, end;
      }
      var entry := 0;
      for i := 0 to |regions|
        invariant entry == Offset(regions, i)
        invariant KernelRegion(regions, first.value, last.value, 0) == KernelRegion(regions, first.value, last.value, i)
        invariant bytes[..] == old(bytes[..])
      {
        if regions[i].kind == RAM {
          if regions[i].base <= first.value && regions[i].base + regions[i].length >= last.value {
            ClearRun(bytes, entry, (first.value - regions[i].base) / 0x1000, numberOfPages);
            return false, end;
          }
          StepsAgree(regions[i]);
          entry := entry + regions[i].length / 0x8000;
        }
      }
      return true, end;
    }

    /** Lines 107-147: scans one eighth of the entry's share. */
    method ScanRegion(entry: nat, share: nat, n: nat) returns (found: bool, start: nat)
      requires entry + share <= bytes.Length
      ensures found ==> n >= 1 && start + n <= 8 * (share / 8) && RunAt(bytes[..], 8 * entry, start, n)
      ensures found ==> forall s: nat :: s < start ==> !RunAt(bytes[..], 8 * entry, s, n)
      ensures !found ==> forall s: nat :: n >= 1 && s + n <= 8 * (share / 8) ==> !RunAt(bytes[..], 8 * entry, s, n)
    {
      hide Scanning, RunAt, Bit;
      ghost var t := bytes[..];
      var bitsLeft, amount, byteIndex := share, 0, 0;
      start := 0;
      ScanStart(t, 8 * entry, n);
      while bitsLeft > 7
        invariant 0 <= byteIndex <= share / 8 && bitsLeft == share - 8 * byteIndex
        invariant Scanning(t, 8 * entry, n, 8 * byteIndex, start, amount)
      {
        var byte := bytes[entry + byteIndex];
        for bitIndex := 0 to 8
          invariant byte == bytes[entry + byteIndex] >> bitIndex
          invariant Scanning(t, 8 * entry, n, 8 * byteIndex + bitIndex, start, amount)
        {
          ghost var pos := 8 * byteIndex + bitIndex;
          ScanBit(t, entry, byteIndex, bitIndex, byte);
          if byte & 1 == 1 {
            ScanHit(t, 8 * entry, n, pos, start, amount);
            amount := amount + 1;
            if amount == n {
              return true, start;
            }
          } else {
            ScanMiss(t, 8 * entry, n, pos, start, amount);
            amount := 0;
            start := byteIndex * 8 + bitIndex + 1;
          }
          byte := byte >> 1;
        }
        byteIndex := byteIndex + 1;
        bitsLeft := bitsLeft - 8;
      }
      ScanEnd(t, 8 * entry, n, 8 * byteIndex, start, amount);
      return false, start;
    }

    /** `mem_palloc`: 0 and an address, or 1.  `k` and `s` name the entry and
        the page in it. */
    method Alloc(n: nat) returns (code: nat, addr: nat, ghost k: nat, ghost s: nat)
      requires Valid()
      modifies bytes
      ensures AllocStep(regions, old(bytes[..]), bytes[..], n, code, addr, k, s)
    {
      addr, k, s := 0, 0, 0;
      ghost var t := bytes[..];
      var entry := 0;
      for i := 0 to |regions|
        invariant entry == Offset(regions, i) && bytes[..] == t
        invariant NoFitBelow(regions, t, n, i)
      {
        OffsetMonotone(regions, i + 1, |regions|);
        if regions[i].kind == RAM {
          var pages := regions[i].length / 0x1000;
          if pages >= n {
            var found, start := ScanRegion(entry, pages / 8, n);
            if found {
              ClearRun(bytes, entry, start, n);
              addr := regions[i].base;
              addr := addr + 0x1000 * start;
              return 0, addr, i, start;
            }
          }
          entry := entry + pages / 8;
        }
      }
      return 1, addr, k, s;
    }

    /** `mem_pfree`: 0, or 1 if no entry holds the range. */
    method Free(addr: nat, n: nat) returns (code: nat)
      requires Valid() && FreeInBounds(regions, bytes[..], addr, n)
      modifies bytes
      ensures FreeStep(regions, old(bytes[..]), bytes[..], addr, n, code)
    {
      var entry := 0;
      for i := 0 to |regions|
        invariant entry == Offset(regions, i) && bytes[..] == old(bytes[..])
        invariant FindRegion(regions, addr, n, 0) == FindRegion(regions, addr, n, i)
      {
        if regions[i].kind == RAM {
          var size := regions[i].length / 0x1000;
          if regions[i].base <= addr && regions[i].base + size * 0x1000 >= (addr + n * 0x1000) % U64 {
            SetRun(bytes, entry, (addr - regions[i].base) / 0x1000, n);
            return 0;
          }
          entry := entry + size / 8;
        }
      }
      return 1;
    }
  }
}
