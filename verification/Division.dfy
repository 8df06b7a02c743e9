/** Facts about remainders that the rounding of addresses needs. */
module Division {
  lemma DivMod(a: int, d: int)
    requires d > 0
    ensures a == d * (a / d) + a % d && 0 <= a % d < d
  {
  }

  lemma MultipleIsLarge(d: int, x: int)
    requires d > 0
    ensures x > 0 ==> d * x >= d
    ensures x < 0 ==> d * x <= -d
  {
  }

  lemma SmallMultiple(d: int, x: int, r: int)
    requires d > 0 && 0 <= r < d && d * x == r
    ensures r == 0
  {
    MultipleIsLarge(d, x);
  }

  lemma MultipleMod(n: int, d: int)
    requires d > 0
    ensures (d * n) % d == 0
  {
    var a := d * n;
    DivMod(a, d);
    var q, r := a / d, a % d;
    assert d * (n - q) == r by { assert d * (n - q) == d * n - d * q; }
    SmallMultiple(d, n - q, r);
  }

  lemma RoundUp(s: nat, align: nat)
    requires align > 0
    ensures (s + (align - s % align)) % align == 0
  {
    DivMod(s, align);
    var q := s / align;
    assert s + (align - s % align) == align * (q + 1) by { assert align * (q + 1) == align * q + align; }
    MultipleMod(q + 1, align);
  }

  lemma MultiplesApart(a: nat, b: nat, d: nat)
    requires d > 0 && a % d == 0 && b % d == 0 && a < b
    ensures a + d <= b
  {
    DivMod(a, d);
    DivMod(b, d);
    var x := b / d - a / d;
    assert b - a == d * x by { assert d * x == d * (b / d) - d * (a / d); }
    MultipleIsLarge(d, x);
  }
}
