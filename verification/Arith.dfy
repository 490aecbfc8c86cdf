/** Numbers as registers hold them, and remainders. */
module Arith {

  const WORD: nat := 0x1_0000_0000

  function Min(a: nat, b: nat): (m: nat)
    ensures m <= a && m <= b && (m == a || m == b)
  {
    if a <= b then a else b
  }

  /** A sum, difference or product as a 32-bit register holds it. */
  function U32(x: int): (r: nat)
    ensures r < WORD
  {
    x % WORD
  }

  /** Quotient and remainder are the only ones. */
  lemma ModIs(x: nat, d: nat, q: nat, r: nat)
    requires d > 0 && x == d * q + r && r < d
    ensures x / d == q && x % d == r
  {
    assert d * (x / d) + x % d == x;
    if x / d < q {
      Gap(x / d, q, d);
    } else if q < x / d {
      Gap(q, x / d, d);
    }
  }

  lemma {:induction false} Gap(a: nat, b: nat, d: nat)
    requires a < b
    ensures d * a + d <= d * b
    decreases b
  {
    assert d * b == d * (b - 1) + d;
    if a + 1 < b {
      Gap(a, b - 1, d);
    }
  }

  lemma Double(p: nat, q: nat)
    ensures (2 * p) * q == 2 * (p * q)
  {
  }

  lemma HalfMod(x: nat, p: nat)
    requires p > 0
    ensures x / (2 * p) == x / 2 / p && x % (2 * p) == 2 * (x / 2 % p) + x % 2
  {
    var h := x / 2;
    var q, r := h / p, h % p;
    assert x == 2 * h + x % 2 && h == p * q + r;
    Double(p, q);
    ModIs(x, 2 * p, q, 2 * r + x % 2);
  }
}
