/** Digits and the numbers they stand for, without the arithmetic on characters of any parser. */
module Numerals {

  function Lower(d: nat): char
    requires d < 16
  {
    "0123456789abcdef"[d]
  }

  function Upper(d: nat): char
    requires d < 16
  {
    "0123456789ABCDEF"[d]
  }

  /** The characters `s` are the digits `ds` in base `base`, letters in either case. */
  predicate Denotes(s: string, ds: seq<nat>, base: nat) {
    && |s| == |ds| && base <= 16
    && forall i :: 0 <= i < |s| ==> ds[i] < base && (s[i] == Lower(ds[i]) || s[i] == Upper(ds[i]))
  }

  predicate Digits(ds: seq<nat>, base: nat) {
    forall i :: 0 <= i < |ds| ==> ds[i] < base
  }

  /** Decimal digits as they are written. */
  function Decimal(ds: seq<nat>): string
    requires Digits(ds, 10)
  {
    if ds == [] then "" else [Lower(ds[0])] + Decimal(ds[1..])
  }

  lemma {:induction false} DecimalDenotes(ds: seq<nat>)
    requires Digits(ds, 10)
    ensures Denotes(Decimal(ds), ds, 10)
  {
    hide Lower, Upper;
    if ds != [] {
      DecimalDenotes(ds[1..]);
    }
  }

  lemma DecimalFront(ds: seq<nat>, rest: string)
    requires Digits(ds, 10) && ds != []
    ensures var s := Decimal(ds) + rest; s != "" && s[0] == Lower(ds[0]) && s[1..] == Decimal(ds[1..]) + rest
  {
    Cons(Lower(ds[0]), Decimal(ds[1..]), rest);
    hide Lower;
  }

  lemma Cons(c: char, a: string, b: string)
    ensures var s := [c] + a + b; s != "" && s[0] == c && s[1..] == a + b
  {
  }

  lemma DecimalNone(rest: string)
    ensures Decimal([]) + rest == rest
  {
  }

  function Power(base: nat, n: nat): nat {
    if n == 0 then 1 else base * Power(base, n - 1)
  }

  /** The number, the most significant digit first. */
  function Value(ds: seq<nat>, base: nat): nat {
    if ds == [] then 0 else ds[0] * Power(base, |ds| - 1) + Value(ds[1..], base)
  }

  lemma {:induction false} ValueCat(a: seq<nat>, b: seq<nat>, base: nat)
    ensures Value(a + b, base) == Value(a, base) * Power(base, |b|) + Value(b, base)
  {
    if a == [] {
      assert a + b == b;
    } else {
      assert (a + b)[1..] == a[1..] + b;
      ValueCat(a[1..], b, base);
      PowerAdd(base, |a| - 1, |b|);
      Spread(a[0], Power(base, |a| - 1), Value(a[1..], base), Power(base, |b|));
    }
  }

  lemma Spread(d: nat, p: nat, v: nat, q: nat)
    ensures (d * p + v) * q == d * (p * q) + v * q
  {
  }

  lemma {:induction false} PowerAdd(base: nat, m: nat, n: nat)
    ensures Power(base, m + n) == Power(base, m) * Power(base, n)
  {
    if m > 0 {
      PowerAdd(base, m - 1, n);
      Spread3(base, Power(base, m - 1), Power(base, n));
    }
  }

  lemma Spread3(a: nat, b: nat, c: nat)
    ensures a * b * c == a * (b * c)
  {
  }

  lemma {:induction false} PowerPositive(base: nat, n: nat)
    requires base > 0
    ensures Power(base, n) > 0
  {
    if n > 0 {
      PowerPositive(base, n - 1);
      assert base * Power(base, n - 1) >= 1 * Power(base, n - 1);
    }
  }

  /** The digits behind a number that has been read. */
  function Onto(acc: nat, ds: seq<nat>, base: nat): nat {
    acc * Power(base, |ds|) + Value(ds, base)
  }

  /** Taking the digits one by one: the number so far times the base, and the digit. */
  lemma TakeOne(acc: nat, ds: seq<nat>, base: nat)
    requires ds != []
    ensures Onto(acc, ds, base) == Onto(acc * base + ds[0], ds[1..], base)
  {
    var p := Power(base, |ds| - 1);
    Spread3(acc, base, p);
    Spread(acc, base, ds[0], p);
    Plus(acc * base, ds[0], p);
  }

  lemma Plus(a: nat, b: nat, p: nat)
    ensures (a + b) * p == a * p + b * p
  {
  }

  lemma TakeNone(acc: nat, base: nat)
    ensures Onto(acc, [], base) == acc
  {
  }

  lemma FromNothing(ds: seq<nat>, base: nat)
    ensures Onto(0, ds, base) == Value(ds, base)
  {
  }

  lemma OntoCat(a: seq<nat>, b: seq<nat>, base: nat)
    ensures Onto(Value(a, base), b, base) == Value(a + b, base)
  {
    ValueCat(a, b, base);
  }

  lemma DenotesTail(s: string, ds: seq<nat>, base: nat)
    requires Denotes(s, ds, base) && s != ""
    ensures Denotes(s[1..], ds[1..], base)
  {
  }
}
