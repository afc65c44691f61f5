/** Small functions on numbers, and facts about quotients and remainders by a divisor that is not a constant. */
module Arithmetic {

  const U32 := 0x1_0000_0000
  const U64 := 0x1_0000_0000_0000_0000

  function Min(a: int, b: int): (r: int)
    ensures r <= a && r <= b && (r == a || r == b)
  {
    if a < b then a else b
  }

  function Max(a: int, b: int): (r: int)
    ensures r >= a && r >= b && (r == a || r == b)
  {
    if a > b then a else b
  }

  function Power2(n: nat): (r: nat)
    ensures r > 0
  {
    if n == 0 then 1 else 2 * Power2(n - 1)
  }

  /** Two numbers less than h apart have different residues. */
  lemma ResiduesDiffer(h: nat, a: nat, b: nat)
    requires h > 0 && a < b < a + h
    ensures a % h != b % h
  {
    var q := b / h - a / h;
    assert b % h - a % h == (b - a) - h * q;
    if q <= 0 {
      assert h * q <= 0;
    } else {
      assert h * q >= h;
    }
  }

  lemma ResidueSmall(h: nat, x: nat)
    requires h > 0
    ensures x % h <= x
  {
    if x < h { QuotientAndResidue(h, x, 0, x); }
  }

  lemma QuotientAndResidue(h: nat, x: nat, q: nat, r: nat)
    requires h > 0 && x == q * h + r && r < h
    ensures x / h == q && x % h == r
  {
    assert (x / h - q) * h == r - x % h;
    SmallMultiple(x / h - q, h);
  }

  lemma SmallMultiple(d: int, h: int)
    requires -h < d * h < h
    ensures d == 0
  {
  }

  lemma Cancel(b: int, c: int, s: int)
    requires s > 0 && b * s < c * s
    ensures b < c
  {
  }
}
