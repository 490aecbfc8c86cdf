/** The bits of natural numbers, enough for `pow2gt`. */
module Bits {
  import opened Arith

  /** Bit `i` of `x`. */
  function Bit(x: nat, i: nat): bool
    decreases i
  {
    if i == 0 then x % 2 == 1 else Bit(x / 2, i - 1)
  }

  /** `x >> k` */
  function Shr(x: nat, k: nat): nat
    decreases k
  {
    if k == 0 then x else Shr(x / 2, k - 1)
  }

  /** `x | y` */
  function Or(x: nat, y: nat): nat {
    if x == 0 then y else if y == 0 then x
    else 2 * Or(x / 2, y / 2) + (if x % 2 == 1 || y % 2 == 1 then 1 else 0)
  }

  /** `x & y` */
  function And(x: nat, y: nat): (r: nat)
    ensures r <= y
  {
    if x == 0 || y == 0 then 0
    else 2 * And(x / 2, y / 2) + (if x % 2 == 1 && y % 2 == 1 then 1 else 0)
  }

  function Pow2(n: nat): (p: nat)
    ensures p > 0
  {
    if n == 0 then 1 else 2 * Pow2(n - 1)
  }

  lemma {:induction false} ZeroBits(i: nat)
    ensures !Bit(0, i)
  {
    if i > 0 {
      ZeroBits(i - 1);
    }
  }

  lemma {:induction false} ShrBit(x: nat, k: nat, i: nat)
    ensures Bit(Shr(x, k), i) == Bit(x, i + k)
    decreases k
  {
    if k > 0 {
      ShrBit(x / 2, k - 1, i);
    }
  }

  lemma OrHalves(x: nat, y: nat)
    requires x > 0 && y > 0
    ensures Or(x, y) / 2 == Or(x / 2, y / 2) && (Or(x, y) % 2 == 1 <==> x % 2 == 1 || y % 2 == 1)
  {
    var b := if x % 2 == 1 || y % 2 == 1 then 1 else 0;
    var h := Or(x / 2, y / 2);
    assert Or(x, y) == 2 * h + b;
  }

  lemma {:induction false} OrBit(x: nat, y: nat, i: nat)
    ensures Bit(Or(x, y), i) == (Bit(x, i) || Bit(y, i))
    decreases i
  {
    if x == 0 || y == 0 {
      ZeroBits(i);
    } else {
      OrHalves(x, y);
      if i > 0 {
        OrBit(x / 2, y / 2, i - 1);
      }
    }
  }

  /** Numbers below `2^n` have no bit from `n` on. */
  lemma {:induction false} HighBits(x: nat, n: nat, i: nat)
    requires x < Pow2(n) && n <= i
    ensures !Bit(x, i)
    decreases n
  {
    if n == 0 {
      ZeroBits(i);
    } else {
      HighBits(x / 2, n - 1, i - 1);
    }
  }

  lemma {:induction false} TopBit(x: nat, n: nat)
    requires Pow2(n) <= x < Pow2(n + 1)
    ensures Bit(x, n)
    decreases n
  {
    if n > 0 {
      TopBit(x / 2, n - 1);
    }
  }

  /** A number whose set bits are exactly the lowest `n` is `2^n - 1`. */
  lemma {:induction false} AllOnes(x: nat, n: nat)
    requires forall i: nat :: Bit(x, i) <==> i < n
    ensures x == Pow2(n) - 1
    decreases n, x
  {
    assert Bit(x, 0) <==> 0 < n;
    forall i: nat
      ensures Bit(x / 2, i) <==> i + 1 < n
    {
      assert Bit(x, i + 1) == Bit(x / 2, i);
    }
    if n > 0 {
      AllOnes(x / 2, n - 1);
    } else if x != 0 {
      AllOnes(x / 2, 0);
    }
  }

  /** The top bit is `m`, and the `k` bits from it downwards are set. */
  ghost predicate Smeared(x: nat, m: nat, k: nat) {
    forall i: nat :: (Bit(x, i) ==> i <= m) && (m < i + k && i <= m ==> Bit(x, i))
  }

  /** `x |= x >> k` doubles the run of set bits. */
  lemma Smear(x: nat, m: nat, k: nat)
    requires Smeared(x, m, k)
    ensures Smeared(Or(x, Shr(x, k)), m, 2 * k)
  {
    var y := Or(x, Shr(x, k));
    forall i: nat
      ensures (Bit(y, i) ==> i <= m) && (m < i + 2 * k && i <= m ==> Bit(y, i))
    {
      OrBit(x, Shr(x, k), i);
      ShrBit(x, k, i);
      assert Bit(x, i) ==> i <= m;
      assert Bit(x, i + k) ==> i + k <= m;
      assert m < i + k && i <= m ==> Bit(x, i);
      assert m < i + k + k && i + k <= m ==> Bit(x, i + k);
    }
  }

  /** `x|=x>>1; x|=x>>2; x|=x>>4; x|=x>>8; x|=x>>16;` */
  function Fill(a: nat): nat {
    var b := Or(a, Shr(a, 1));
    var c := Or(b, Shr(b, 2));
    var d := Or(c, Shr(c, 4));
    var e := Or(d, Shr(d, 8));
    Or(e, Shr(e, 16))
  }

  lemma FillSmears(a: nat, m: nat)
    requires Smeared(a, m, 1)
    ensures Smeared(Fill(a), m, 32)
  {
    var b := Or(a, Shr(a, 1));
    var c := Or(b, Shr(b, 2));
    var d := Or(c, Shr(c, 4));
    var e := Or(d, Shr(d, 8));
    Smear(a, m, 1);
    Smear(b, m, 2);
    Smear(c, m, 4);
    Smear(d, m, 8);
    Smear(e, m, 16);
  }

  /** `pow2gt` */
  function Pow2gt(x: nat): (r: nat)
    requires x > 0
  {
    Fill(x - 1) + 1
  }

  lemma FillZero()
    ensures Fill(0) == 0
  {
  }

  /** The exponent of the largest power of two not above `x`. */
  lemma {:induction false} Log2(x: nat) returns (m: nat)
    requires x > 0
    ensures Pow2(m) <= x < Pow2(m + 1)
  {
    if x == 1 {
      assert Pow2(1) == 2 * Pow2(0);
      m := 0;
    } else {
      m := Log2(x / 2);
      m := m + 1;
    }
  }

  lemma {:induction false} Pow2Monotone(m: nat, n: nat)
    requires m <= n
    ensures Pow2(m) <= Pow2(n)
    decreases n
  {
    if m < n {
      Pow2Monotone(m, n - 1);
    }
  }

  /** A number between two powers of two has its top bit set and none above it. */
  lemma Leading(a: nat, m: nat)
    requires Pow2(m) <= a < Pow2(m + 1)
    ensures Smeared(a, m, 1)
  {
    forall i: nat
      ensures (Bit(a, i) ==> i <= m) && (m < i + 1 && i <= m ==> Bit(a, i))
    {
      if i > m {
        HighBits(a, m + 1, i);
      } else if i == m {
        TopBit(a, m);
      }
    }
  }

  lemma Filled(f: nat, m: nat, k: nat)
    requires Smeared(f, m, k) && k > m
    ensures f == Pow2(m + 1) - 1
  {
    assert forall i: nat :: Bit(f, i) <==> i < m + 1;
    AllOnes(f, m + 1);
  }

  /** `pow2gt(x)` is the smallest power of two that is at least `x`, up to the largest an `int` holds. */
  lemma Pow2gtIs(x: nat, limit: nat) returns (n: nat)
    requires 0 < x <= Pow2(limit) && limit <= 30
    ensures n <= limit && Pow2gt(x) == Pow2(n) && x <= Pow2(n) && (n > 0 ==> Pow2(n - 1) < x)
  {
    var a := x - 1;
    hide Fill, Smeared;
    if a == 0 {
      FillZero();
      n := 0;
    } else {
      var m := Log2(a);
      if m >= limit {
        Pow2Monotone(limit, m);
      }
      Leading(a, m);
      FillSmears(a, m);
      Filled(Fill(a), m, 32);
      n := m + 1;
    }
  }

  /** `x & (size - 1)` is the remainder by the size, if that is a power of two. */
  lemma {:induction false} AndMask(x: nat, n: nat)
    ensures And(x, Pow2(n) - 1) == x % Pow2(n)
    decreases n
  {
    if n > 0 {
      AndMask(x / 2, n - 1);
      AndOnes(x, Pow2(n - 1));
      HalfMod(x, Pow2(n - 1));
    }
  }

  lemma AndOnes(x: nat, p: nat)
    requires p > 0
    ensures And(x, 2 * p - 1) == 2 * And(x / 2, p - 1) + x % 2
  {
    assert (2 * p - 1) / 2 == p - 1 && (2 * p - 1) % 2 == 1;
  }

  /** `size & (size - 1)` is zero for a positive size exactly if it is a power of two. */
  lemma {:induction false} PowerTest(size: nat)
    requires size > 0
    ensures And(size, size - 1) == 0 <==> exists n: nat :: size == Pow2(n)
  {
    hide And, Pow2;
    PowSteps(0);
    if size == 1 {
      AndOne();
    } else {
      AndBelow(size);
      if n: nat :| size == Pow2(n) {
        PowSteps(n);
        assert size / 2 == Pow2(n - 1);
      }
      if size % 2 == 0 {
        PowerTest(size / 2);
        if n: nat :| size / 2 == Pow2(n) {
          PowSteps(n);
        }
      }
    }
  }

  lemma AndOne()
    ensures And(1, 0) == 0
  {
  }

  lemma PowSteps(n: nat)
    ensures Pow2(0) == 1 && Pow2(n + 1) == 2 * Pow2(n) && (n > 0 ==> Pow2(n) == 2 * Pow2(n - 1))
  {
  }

  lemma AndBelow(x: nat)
    requires x > 1
    ensures And(x, x - 1) == if x % 2 == 0 then 2 * And(x / 2, x / 2 - 1) else 2 * (x / 2)
  {
    if x % 2 == 0 {
      assert (x - 1) / 2 == x / 2 - 1;
    } else {
      assert (x - 1) / 2 == x / 2;
      AndSelf(x / 2);
    }
  }

  lemma {:induction false} AndSelf(x: nat)
    ensures And(x, x) == x
  {
    if x > 0 {
      AndSelf(x / 2);
    }
  }

  lemma {:induction false} Pow2Cat(m: nat, n: nat)
    ensures Pow2(m + n) == Pow2(m) * Pow2(n)
    decreases m
  {
    if m > 0 {
      Pow2Cat(m - 1, n);
      Double(Pow2(m - 1), Pow2(n));
    }
  }

  lemma Pow2Word()
    ensures Pow2(32) == 0x1_0000_0000
  {
    assert Pow2(2) == 4;
    Pow2Cat(2, 2);
    Pow2Cat(4, 4);
    Pow2Cat(8, 8);
    Pow2Cat(16, 16);
  }
}
