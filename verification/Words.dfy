/** Page and frame numbers as 64-bit words, bit by bit. */
module Words {
  import opened PageEntry

  /** The low `k` bits of `n`. */
  function Bits(n: nat, k: nat): Word {
    if k == 0 then 0 else Push(Bits(n / 2, k - 1), n % 2 == 1)
  }

  function Push(w: Word, b: bool): Word { (w << 1) | (if b then 1 else 0) }

  function Ones(k: nat): Word {
    if k == 0 then 0 else Push(Ones(k - 1), true)
  }

  function Pow2(k: nat): nat {
    if k == 0 then 1 else 2 * Pow2(k - 1)
  }

  predicate Within(w: Word, mask: Word) { w & !mask == 0 }

  lemma PushWithin(w: Word, m: Word, b: bool)
    requires Within(w, m)
    ensures Within(Push(w, b), Push(m, true))
  {
    if b {
      assert ((w << 1) | 1) & !((m << 1) | 1) == (w & !m) << 1;
    } else {
      assert ((w << 1) | 0) & !((m << 1) | 1) == (w & !m) << 1;
    }
  }

  lemma NothingWithin(m: Word)
    ensures Within(0, m)
  {
  }

  lemma WithinTrans(a: Word, b: Word, c: Word)
    requires Within(a, b) && Within(b, c)
    ensures Within(a, c)
  {
  }

  lemma {:induction false} BitsWithin(n: nat, k: nat)
    ensures Within(Bits(n, k), Ones(k))
  {
    hide Push, Within;
    if k == 0 {
      NothingWithin(Ones(0));
    } else {
      BitsWithin(n / 2, k - 1);
      PushWithin(Bits(n / 2, k - 1), Ones(k - 1), n % 2 == 1);
    }
  }

  lemma {:induction false} OnesGrow(j: nat, k: nat)
    requires j <= k
    ensures Within(Ones(j), Ones(k))
    decreases k
  {
    if 0 < j {
      OnesGrow(j - 1, k - 1);
      PushWithin(Ones(j - 1), Ones(k - 1), true);
    } else {
      assert Ones(0) == 0;
    }
  }

  function PushThree(w: Word): Word { (w << 3) | 0x7 }

  lemma PushThrice(w: Word)
    ensures Push(Push(Push(w, true), true), true) == PushThree(w)
  {
  }

  lemma ThreeOnes(k: nat)
    ensures Ones(k + 3) == PushThree(Ones(k))
  {
    hide Push, PushThree;
    PushThrice(Ones(k));
    assert Ones(k + 1) == Push(Ones(k), true);
    assert Ones(k + 2) == Push(Ones(k + 1), true);
    assert Ones(k + 3) == Push(Ones(k + 2), true);
  }

  lemma ThreeDoublings(k: nat)
    ensures Pow2(k + 3) == 8 * Pow2(k)
  {
    assert Pow2(k + 1) == 2 * Pow2(k);
    assert Pow2(k + 2) == 2 * Pow2(k + 1);
  }

  lemma Powers()
    ensures Pow2(27) == 0x800_0000 && Pow2(36) == 0x10_0000_0000
  {
    ThreeDoublings(0);
    ThreeDoublings(3);
    ThreeDoublings(6);
    ThreeDoublings(9);
    ThreeDoublings(12);
    ThreeDoublings(15);
    ThreeDoublings(18);
    ThreeDoublings(21);
    ThreeDoublings(24);
    ThreeDoublings(27);
    ThreeDoublings(30);
    ThreeDoublings(33);
  }

  lemma Masks()
    ensures Ones(27) == 0x7FF_FFFF && Ones(36) == 0xF_FFFF_FFFF
  {
    ThreeOnes(0);
    ThreeOnes(3);
    ThreeOnes(6);
    ThreeOnes(9);
    ThreeOnes(12);
    ThreeOnes(15);
    ThreeOnes(18);
    ThreeOnes(21);
    ThreeOnes(24);
    ThreeOnes(27);
    ThreeOnes(30);
    ThreeOnes(33);
  }

  lemma SmallBits(n: nat, k: nat)
    requires k <= 36
    ensures Within(Bits(n, k), 0xF_FFFF_FFFF)
  {
    hide Push, Within, Bits, Ones;
    Masks();
    BitsWithin(n, k);
    OnesGrow(k, 36);
    WithinTrans(Bits(n, k), Ones(k), Ones(36));
  }

  lemma PushInjective(x: Word, y: Word, b: bool, c: bool)
    requires Within(x, 0xF_FFFF_FFFF) && Within(y, 0xF_FFFF_FFFF) && Push(x, b) == Push(y, c)
    ensures x == y && b == c
  {
  }

  lemma {:induction false} BitsInjective(n: nat, m: nat, k: nat)
    requires k <= 36 && n < Pow2(k) && m < Pow2(k) && Bits(n, k) == Bits(m, k)
    ensures n == m
  {
    hide Push, Within;
    if k > 0 {
      SmallBits(n / 2, k - 1);
      SmallBits(m / 2, k - 1);
      PushInjective(Bits(n / 2, k - 1), Bits(m / 2, k - 1), n % 2 == 1, m % 2 == 1);
      BitsInjective(n / 2, m / 2, k - 1);
    }
  }

  // ---- Counting ----

  function OneMore(w: Word): Word { w + 1 }

  lemma PushOneMore(w: Word)
    ensures Push(w, true) == OneMore(Push(w, false)) && Push(OneMore(w), false) == OneMore(Push(w, true))
  {
  }

  lemma {:induction false} BitsCount(n: nat, k: nat)
    requires n + 1 < Pow2(k)
    ensures Bits(n + 1, k) == OneMore(Bits(n, k))
  {
    hide Push, OneMore;
    PushOneMore(Bits(n / 2, k - 1));
    if n % 2 == 0 {
      assert (n + 1) / 2 == n / 2;
    } else {
      assert (n + 1) / 2 == n / 2 + 1;
      BitsCount(n / 2, k - 1);
    }
  }

  lemma {:induction false} BitsOfZero(k: nat)
    ensures Bits(0, k) == 0
  {
    if k > 0 { BitsOfZero(k - 1); }
  }

  // ---- Pages and frames ----

  /** Pages below 512 GiB: those of top-level slot 0. */
  const LOW_PAGES := 0x800_0000

  /** Frames below 2^48. */
  const FRAMES := 0x10_0000_0000

  function Shift12(w: Word): Word { w << 12 }

  /** The linear address of page `n`. */
  function PageWord(n: nat): Word
    requires n < LOW_PAGES
  {
    Shift12(Bits(n, 27))
  }

  /** The physical address of frame `n`. */
  function FrameWord(n: nat): Word
    requires n < FRAMES
  {
    Shift12(Bits(n, 36))
  }

  lemma ShiftedPage(x: Word)
    requires Within(x, 0x7FF_FFFF)
    ensures PageOf(Shift12(x)) == Shift12(x) && I4(Shift12(x)) == 0 && Within(x, 0xF_FFFF_FFFF)
  {
  }

  lemma ShiftInjective(x: Word, y: Word)
    requires Within(x, 0xF_FFFF_FFFF) && Within(y, 0xF_FFFF_FFFF) && Shift12(x) == Shift12(y)
    ensures x == y
  {
  }

  lemma ShiftedFrame(x: Word, f: Word)
    requires Within(x, 0xF_FFFF_FFFF) && FilterOk(f)
    ensures Mask(Shift12(x), f) == Shift12(x)
  {
  }

  lemma PageWords(a: nat, b: nat)
    requires a < LOW_PAGES && b < LOW_PAGES
    ensures PageOf(PageWord(a)) == PageOf(PageWord(b)) <==> a == b
    ensures I4(PageWord(a)) == 0
  {
    hide Within, Shift12, Bits, Ones, Pow2;
    Masks();
    Powers();
    BitsWithin(a, 27);
    BitsWithin(b, 27);
    ShiftedPage(Bits(a, 27));
    ShiftedPage(Bits(b, 27));
    if Shift12(Bits(a, 27)) == Shift12(Bits(b, 27)) {
      ShiftInjective(Bits(a, 27), Bits(b, 27));
      BitsInjective(a, b, 27);
    }
  }

  lemma FrameWords(a: nat, b: nat, f: Word)
    requires FilterOk(f) && a < FRAMES && b < FRAMES
    ensures Mask(FrameWord(a), f) == FrameWord(a)
    ensures FrameWord(a) == FrameWord(b) <==> a == b
  {
    hide Within, Shift12, Bits, Ones, Pow2;
    Masks();
    Powers();
    BitsWithin(a, 36);
    BitsWithin(b, 36);
    ShiftedFrame(Bits(a, 36), f);
    if Shift12(Bits(a, 36)) == Shift12(Bits(b, 36)) {
      ShiftInjective(Bits(a, 36), Bits(b, 36));
      BitsInjective(a, b, 36);
    }
  }

  lemma ShiftOneMore(w: Word)
    ensures Shift12(OneMore(w)) == Shift12(w) + 0x1000 && Shift12(0) == 0
  {
  }

  /** Page 0 starts at address 0, and each page 0x1000 after the one before. */
  lemma PageWordCounts(n: nat)
    requires n < LOW_PAGES
    ensures PageWord(0) == 0 && (n + 1 < LOW_PAGES ==> PageWord(n + 1) == PageWord(n) + 0x1000)
  {
    hide Bits, OneMore, Shift12, Pow2;
    Powers();
    BitsOfZero(27);
    ShiftOneMore(Bits(n, 27));
    if n + 1 < LOW_PAGES { BitsCount(n, 27); }
  }

  /** ... and so do frames. */
  lemma FrameWordCounts(n: nat)
    requires n < FRAMES
    ensures FrameWord(0) == 0 && (n + 1 < FRAMES ==> FrameWord(n + 1) == FrameWord(n) + 0x1000)
  {
    hide Bits, OneMore, Shift12, Pow2;
    Powers();
    BitsOfZero(36);
    ShiftOneMore(Bits(n, 36));
    if n + 1 < FRAMES { BitsCount(n, 36); }
  }
}
