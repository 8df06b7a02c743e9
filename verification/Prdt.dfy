/** The physical region descriptor table of a read command
    (kernel/src/code/disk/ahci.c lines 239-287; AHCI specification 1.3.1,
    section 4.2.3.3). */
module Prdt {
  const U16 := 0x1_0000
  const U22 := 0x40_0000
  const U32 := 0x1_0000_0000
  const U64 := 0x1_0000_0000_0000_0000

  /** Sectors, and bytes, of a full descriptor. */
  const SECTORS := 16
  const FULL := 0x2000

  /** What line 257 adds to the buffer address for each full descriptor. */
  const STEP := 0x1000

  datatype Descriptor = Descriptor(lower: nat, upper: nat, byteCount: nat, interrupt: nat)

  /** Line 239, with the wrap-around of its 32-bit and 16-bit operands. */
  function TableLength(count: nat): nat
    requires count < U32
  {
    ((((count + U32 - 1) % U32) / 16) % U16 + 1) % U16
  }

  /** Index of the last descriptor written. */
  function Last(count: nat): nat
    requires count < U32
  {
    if TableLength(count) == 0 then 0 else TableLength(count) - 1
  }

  /** What is left of `count` after the loop. */
  function Left(count: nat): nat
    requires count < U32
  {
    (count + U32 - (SECTORS * Last(count)) % U32) % U32
  }

  function LastField(left: nat): nat {
    ((((left * 512) % U32) + U32 - 1) % U32) % U22
  }

  function SegmentStart(buf: nat, i: nat, step: nat): nat {
    (buf + step * i) % U64
  }

  function DescriptorAt(count: nat, buf: nat, i: nat, step: nat): Descriptor
    requires count < U32
  {
    var a := SegmentStart(buf, i, step);
    Descriptor(a % U32, a / U32, if i < Last(count) then FULL - 1 else LastField(Left(count)), 1)
  }

  function Table(count: nat, buf: nat, step: nat): seq<Descriptor>
    requires count < U32
  {
    seq(Last(count) + 1, i requires i >= 0 => DescriptorAt(count, buf, i, step))
  }

  function Bytes(d: Descriptor): nat { d.byteCount + 1 }

  function TotalBytes(ds: seq<Descriptor>): nat {
    if ds == [] then 0 else TotalBytes(ds[..|ds| - 1]) + Bytes(ds[|ds| - 1])
  }

  // ---- Conservation ----

  /** The loop never takes more sectors than there are. */
  lemma LeftIs(count: nat)
    requires count < U32
    ensures SECTORS * Last(count) <= count && Left(count) == count - SECTORS * Last(count)
  {
  }

  lemma {:induction false} FullPrefix(ds: seq<Descriptor>)
    requires forall i :: 0 <= i < |ds| ==> ds[i].byteCount == FULL - 1
    ensures TotalBytes(ds) == FULL * |ds|
  {
    if ds != [] { FullPrefix(ds[..|ds| - 1]); }
  }

  lemma TotalIs(count: nat, buf: nat, step: nat)
    requires count < U32
    ensures TotalBytes(Table(count, buf, step)) == FULL * Last(count) + LastField(Left(count)) + 1
  {
    var ds := Table(count, buf, step);
    var n := Last(count);
    assert ds[n] == DescriptorAt(count, buf, n, step);
    forall i | 0 <= i < n ensures ds[..n][i].byteCount == FULL - 1 {
      assert ds[i] == DescriptorAt(count, buf, i, step);
    }
    FullPrefix(ds[..n]);
  }

  /** For 1 to 1048560 sectors: one descriptor for every 16, 1 to 16 sectors in
      the last. */
  lemma LengthInRange(count: nat)
    requires 1 <= count <= 1048560
    ensures TableLength(count) == (count + 15) / 16 && 1 <= Left(count) <= 16
    ensures LastField(Left(count)) == 512 * Left(count) - 1
  {
    LeftIs(count);
    var q := (count - 1) / 16;
    assert (count + U32 - 1) % U32 == count - 1 && q <= 65534;
    assert TableLength(count) == q + 1;
    SmallField(Left(count));
  }

  lemma SmallField(left: nat)
    requires 1 <= left <= 16
    ensures LastField(left) == 512 * left - 1
  {
  }

  /** The descriptors cover exactly the sectors asked for if and only if there
      are 1 to 1048560 of them. */
  lemma BytesConservedIff(count: nat, buf: nat, step: nat)
    requires count < U32
    ensures TotalBytes(Table(count, buf, step)) == 512 * count <==> 1 <= count <= 1048560
  {
    TotalIs(count, buf, step);
    LeftIs(count);
    if 1 <= count <= 1048560 {
      LengthInRange(count);
    } else if count > 0 {
      OutOfRange(count);
    }
  }

  lemma OutOfRange(count: nat)
    requires 1048560 < count < U32
    ensures FULL * Last(count) + U22 < 512 * count
  {
    var q := (count - 1) / 16;
    assert q >= 65535;
    assert Last(count) <= q % U16;
    if q >= 2 * U16 {
      assert FULL * Last(count) + U22 <= FULL * 65535 + U22 < 512 * (16 * 2 * U16);
    } else if q >= U16 {
      assert Last(count) <= q - U16;
    } else {
      assert q == 65535 && TableLength(count) == 0;
    }
  }

  /** Every byte-count field is odd and fits its 22 bits, whatever the count. */
  lemma FieldsAreOdd(count: nat, buf: nat, step: nat, i: nat)
    requires count < U32 && i <= Last(count)
    ensures Table(count, buf, step)[i].byteCount % 2 == 1 && Table(count, buf, step)[i].byteCount < U22
  {
    hide LastField, TableLength, Left, Last;
    assert Table(count, buf, step)[i] == DescriptorAt(count, buf, i, step);
    FieldIsOdd(Left(count));
  }

  lemma FieldIsOdd(left: nat)
    ensures LastField(left) % 2 == 1 && LastField(left) < U22
  {
    assert left * 512 == 2 * (left * 256);
    EvenRemainder(left * 512);
    var sectors := (left * 512) % U32;
    OneLess(sectors);
    OddRemainder((sectors + U32 - 1) % U32);
  }

  lemma SameParity(x: nat, h: nat, q: nat, r: nat)
    requires x == 2 * h * q + r
    ensures x % 2 == r % 2
  {
    assert 2 * h * q == 2 * (h * q);
  }

  lemma EvenRemainder(x: nat)
    requires x % 2 == 0
    ensures x % U32 % 2 == 0
  {
    SameParity(x, 0x8000_0000, x / U32, x % U32);
  }

  lemma OneLess(x: nat)
    requires x % 2 == 0 && x < U32
    ensures (x + U32 - 1) % U32 % 2 == 1
  {
    assert (x + U32 - 1) % U32 == if x == 0 then U32 - 1 else x - 1;
  }

  lemma OddRemainder(x: nat)
    requires x % 2 == 1
    ensures x % U22 % 2 == 1
  {
    SameParity(x, 0x20_0000, x / U22, x % U22);
  }

  // ---- What a descriptor holds ----

  /** The two halves of every address are 32-bit words and give the buffer address
      4 KiB further for each descriptor before it; all raise an interrupt. */
  lemma AddressHalves(count: nat, buf: nat, i: nat)
    requires count < U32 && i <= Last(count)
    ensures var d := Table(count, buf, STEP)[i];
            && d.lower < U32 && d.upper < U32 && d.lower + U32 * d.upper == (buf + 0x1000 * i) % U64
            && d.interrupt == 1
  {
    hide Last, LastField, Left;
    assert Table(count, buf, STEP)[i] == DescriptorAt(count, buf, i, STEP);
  }

  /** For 1 to 1048560 sectors every descriptor but the last holds 16 sectors, and
      the last what the command asks for. */
  lemma SectorsHeld(count: nat, buf: nat, i: nat)
    requires 1 <= count <= 1048560 && i <= Last(count)
    ensures Bytes(Table(count, buf, STEP)[i]) == 512 * (if i < Last(count) then 16 else FisCount(count))
  {
    LengthInRange(count);
    assert Table(count, buf, STEP)[i] == DescriptorAt(count, buf, i, STEP);
  }

  // ---- Where the segments lie ----

  /** Each segment starts where the one before it ends. */
  ghost predicate Tiles(count: nat, buf: nat, step: nat)
    requires count < U32
  {
    forall i: nat :: i < Last(count) ==> SegmentStart(buf, i + 1, step) == (SegmentStart(buf, i, step) + FULL) % U64
  }

  /** Stepping by a whole descriptor tiles the buffer; the step the code takes
      does so exactly if there is but one descriptor. */
  lemma TilesIff(count: nat, buf: nat)
    requires 1 <= count <= 1048560
    ensures Tiles(count, buf, FULL)
    ensures Tiles(count, buf, STEP) <==> count <= 16
  {
    LengthInRange(count);
    forall i: nat | i < Last(count)
      ensures SegmentStart(buf, i + 1, FULL) == (SegmentStart(buf, i, FULL) + FULL) % U64
    {
      AddMod(buf + FULL * i, FULL);
    }
    if count > 16 {
      StepsOverlap(buf);
      assert SegmentStart(buf, 0 + 1, STEP) != (SegmentStart(buf, 0, STEP) + FULL) % U64;
    }
  }

  lemma AddMod(a: nat, b: nat)
    ensures (a + b) % U64 == (a % U64 + b) % U64
  {
  }

  lemma StepsOverlap(buf: nat)
    ensures SegmentStart(buf, 1, STEP) != (SegmentStart(buf, 0, STEP) + FULL) % U64
  {
    AddMod(buf, STEP);
  }

  // ---- The command's own sector count ----

  /** Lines 286-287 write the count the loop has already lowered. */
  function FisCount(count: nat): nat
    requires count < U32
  {
    Left(count) % 0x100 + 0x100 * ((Left(count) / 0x100) % 0x100)
  }

  /** The command asks for the sectors the table covers exactly if they fit one
      descriptor. */
  lemma FisCountIff(count: nat)
    requires 1 <= count <= 1048560
    ensures FisCount(count) == count <==> count <= 16
  {
    LengthInRange(count);
    LeftIs(count);
  }

  /** Seventeen sectors: the second segment starts inside the first, and the
      command asks for one sector. */
  lemma SeventeenSectors(buf: nat)
    ensures TableLength(17) == 2 && !Tiles(17, buf, STEP) && FisCount(17) == 1
  {
    TilesIff(17, buf);
  }

  // ---- The loop ----

  lemma NextSegment(buf: nat, i: nat)
    ensures SegmentStart(buf, i + 1, STEP) == (SegmentStart(buf, i, STEP) + 4 * 1024) % U64
  {
    AddMod(buf + STEP * i, STEP);
  }

  /** Fills the table; returns the count as the loop leaves it. */
  method Build(prdt: array<Descriptor>, count: nat, buf: nat) returns (length: nat, left: nat)
    requires count < U32 && buf < U64
    requires Last(count) < prdt.Length
    modifies prdt
    ensures length == TableLength(count) && left == Left(count)
    ensures prdt[..] == Table(count, buf, STEP) + old(prdt[Last(count) + 1..])
  {
    hide TableLength, LastField, Left, SegmentStart;
    length := TableLength(count);
    ghost var before := prdt[..];
    left := count;
    var at := buf;
    StartsAtBuffer(buf);
    LeftIs(count);
    var i := 0;
    while i < length - 1
      invariant 0 <= i <= Last(count) && left == count - SECTORS * i && at == SegmentStart(buf, i, STEP)
      invariant forall j :: 0 <= j < i ==> prdt[j] == DescriptorAt(count, buf, j, STEP)
      invariant forall j :: i <= j < prdt.Length ==> prdt[j] == before[j]
    {
      prdt[i] := Descriptor(at % U32, at / U32, 8 * 1024 - 1, 1);
      NextSegment(buf, i);
      at := (at + 4 * 1024) % U64;
      left := left - 16;
      i := i + 1;
    }
    prdt[i] := Descriptor(at % U32, at / U32, LastField(left), 1);
    assert forall j :: 0 <= j <= Last(count) ==> prdt[j] == DescriptorAt(count, buf, j, STEP);
  }

  lemma StartsAtBuffer(buf: nat)
    requires buf < U64
    ensures SegmentStart(buf, 0, STEP) == buf
  {
  }
}
