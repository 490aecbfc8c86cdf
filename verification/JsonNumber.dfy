/**
 The numbers that cJSON reads: every spelling, and the value it stands for.
 Those of section 6 of RFC 8259 are among them.
 */
module JsonNumber {
  import Seqs
  import opened CText
  import opened JsonParse
  import opened Numerals

  /**
   A number as it is spelled: a sign, a leading zero, the digits that follow it or stand in its place, those of the
   fraction, and the exponent.
   */
  datatype Num = Num(minus: bool, zero: bool, digits: seq<nat>, fraction: seq<nat>, exponent: Exp)
  datatype Exp = NoExp | Exp(letter: char, sign: string, power: seq<nat>)

  /** What cJSON takes for a number. */
  predicate IsNum(n: Num) {
    && Digits(n.digits, 10) && Digits(n.fraction, 10) && (n.digits != [] ==> n.digits[0] != 0)
    && (n.minus || n.zero || n.digits != []) && IsExp(n.exponent)
  }

  predicate IsExp(e: Exp) {
    e.Exp? ==>
      && (e.letter == 'e' || e.letter == 'E') && (e.sign == "" || e.sign == "+" || e.sign == "-")
      && Digits(e.power, 10)
  }

  /** What section 6 of RFC 8259 calls a number. */
  predicate IsRfcNum(n: Num) {
    IsNum(n) && (n.zero <==> n.digits == []) && (n.exponent.Exp? ==> n.exponent.power != [])
  }

  function NumText(n: Num): string
    requires IsNum(n)
  {
    (if n.minus then "-" else "")
    + ((if n.zero then "0" else "") + (Decimal(n.digits) + (FractionText(n.fraction) + ExpText(n.exponent))))
  }

  function FractionText(ds: seq<nat>): string
    requires Digits(ds, 10)
  {
    if ds == [] then "" else "." + Decimal(ds)
  }

  function ExpText(e: Exp): string
    requires IsExp(e)
  {
    if e.NoExp? then "" else [e.letter] + (e.sign + Decimal(e.power))
  }

  /** No character that would continue any number. */
  predicate Ends(rest: string) {
    var c := Head(rest);
    !IsDigit(c) && c != '.' && c != 'e' && c != 'E' && c != '+' && c != '-'
  }

  /** Nothing in `rest` that would continue this number. */
  predicate Stops(n: Num, rest: string)
    requires IsNum(n)
  {
    var after := ExpText(n.exponent) + rest;
    && ExpStops(n.exponent, rest) && FractionStops(n.fraction, after)
    && DigitsStop(n.zero, n.digits, FractionText(n.fraction) + after)
  }

  predicate ExpStops(e: Exp, rest: string) {
    var c := Head(rest);
    if e.NoExp? then c != 'e' && c != 'E'
    else !IsDigit(c) && (e.sign == "" && e.power == [] ==> c != '+' && c != '-')
  }

  predicate FractionStops(ds: seq<nat>, after: string) {
    if ds == [] then !(Head(after) == '.' && IsDigit(Second(after))) else !IsDigit(Head(after))
  }

  predicate DigitsStop(zero: bool, ds: seq<nat>, point: string) {
    var c := Head(point);
    if ds == [] then !('1' <= c <= '9') && (zero || c != '0') else !IsDigit(c)
  }

  // ----- the value -----

  /** The digits before and behind the point as one number, with the sign. */
  function Mantissa(n: Num): int {
    var m := Value(n.digits + n.fraction, 10);
    if n.minus then 0 - m else m
  }

  function Power10(e: Exp): int {
    if e.NoExp? then 0 else if e.sign == "-" then 0 - Value(e.power, 10) else Value(e.power, 10)
  }

  /** A power of ten with any exponent. */
  function Ten(k: int): (r: real)
    ensures r > 0.0
  {
    PowerPositive(10, if k < 0 then -k else k);
    if k >= 0 then Power(10, k) as real else 1.0 / Power(10, -k) as real
  }

  /** The value a spelling stands for. */
  function NumValue(n: Num): real {
    Mantissa(n) as real * Ten(Power10(n.exponent) - |n.fraction|)
  }

  // ----- powers -----

  lemma {:induction false} Pow10Is(k: int)
    ensures Pow10(k) == Ten(k)
    decreases if k < 0 then -k else k
  {
    if k > 0 {
      Pow10Is(k - 1);
    } else if k < 0 {
      Pow10Is(k + 1);
      PowerPositive(10, -k - 1);
      Tenth(Power(10, -k - 1));
    }
  }

  lemma Tenth(p: nat)
    requires p > 0
    ensures 1.0 / p as real / 10.0 == 1.0 / (10 * p) as real
  {
    var x := 1.0 / p as real / 10.0;
    assert (10 * p) as real == 10.0 * p as real;
    assert x * (10.0 * p as real) == 1.0;
  }

  /** Scaling up multiplies by a power of ten, and scaling down divides by it. */
  lemma ScaledIs(m: real, n: nat)
    ensures Scaled(m, n) == m * Power(10, n) as real
    ensures Scaled(m, 0 - n) * Power(10, n) as real == m
  {
    Pow10Is(n);
    Pow10Is(0 - n);
    PowerPositive(10, n);
    Cancel(m, Power(10, n) as real);
  }

  lemma Cancel(m: real, p: real)
    requires p != 0.0
    ensures m * (1.0 / p) * p == m
  {
    assert 1.0 / p * p == 1.0;
  }

  // ----- reading the parts -----

  lemma DigitIs(d: nat)
    requires d < 10
    ensures IsDigit(Lower(d)) && DigitOf(Lower(d)) == d && (Lower(d) == '0' <==> d == 0)
    ensures '1' <= Lower(d) <= '9' <==> d != 0
  {
  }

  lemma {:induction false} TakeDigitsIs(ds: seq<nat>, rest: string, acc: nat)
    requires Digits(ds, 10) && !IsDigit(Head(rest))
    ensures TakeDigits(Decimal(ds) + rest, acc as real) == (Onto(acc, ds, 10) as real, rest)
    decreases ds
  {
    hide Onto, Decimal, Lower, DigitOf;
    if ds == [] {
      DecimalNone(rest);
      TakeNone(acc, 10);
    } else {
      DecimalFront(ds, rest);
      DigitIs(ds[0]);
      TakeDigitsIs(ds[1..], rest, acc * 10 + ds[0]);
      TakeOne(acc, ds, 10);
      assert (acc * 10 + ds[0]) as real == acc as real * 10.0 + ds[0] as real;
    }
  }

  lemma ExponentIs(e: Exp, rest: string)
    requires IsExp(e) && ExpStops(e, rest)
    ensures Exponent(ExpText(e) + rest) == (Power10(e), rest)
  {
    hide Onto, Decimal, Value, TakeDigits;
    if e.NoExp? {
      assert "" + rest == rest;
    } else {
      var p := Decimal(e.power) + rest;
      var s := ExpText(e) + rest;
      assert s[0] == e.letter && s[1..] == e.sign + p;
      TakeDigitsIs(e.power, rest, 0);
      FromNothing(e.power, 10);
      PowerHead(e, rest);
      SignOff(e.sign, p);
      if e.sign != "" {
        assert s[1..][1..] == s[2..];
      }
    }
  }

  lemma SignOff(sign: string, p: string)
    requires (sign == "" && Head(p) != '+' && Head(p) != '-') || sign == "+" || sign == "-"
    ensures var s := sign + p;
      && (Head(s) == '-' <==> sign == "-") && (Head(s) == '+' <==> sign == "+")
      && (sign == "" ==> s == p) && (sign != "" ==> s != "" && s[1..] == p)
  {
    if sign == "" {
      assert "" + p == p;
    }
  }

  /** Digits, or what follows them. */
  lemma PowerHead(e: Exp, rest: string)
    requires e.Exp? && IsExp(e) && ExpStops(e, rest)
    ensures var c := Head(Decimal(e.power) + rest); e.sign == "" ==> c != '+' && c != '-'
  {
    hide Decimal, Lower;
    if e.power == [] {
      DecimalNone(rest);
    } else {
      DecimalFront(e.power, rest);
      DigitIs(e.power[0]);
    }
  }

  /** The end of any number is the end of this one. */
  lemma EndsStops(n: Num, rest: string)
    requires IsNum(n) && Ends(rest)
    ensures Stops(n, rest)
  {
    hide Decimal;
    var after := ExpText(n.exponent) + rest;
    if n.exponent.NoExp? {
      assert after == rest;
    }
    if n.fraction == [] {
      assert FractionText(n.fraction) + after == after;
    }
  }

  lemma FractionIs(ds: seq<nat>, after: string, acc: nat)
    requires Digits(ds, 10) && FractionStops(ds, after)
    ensures Fraction(FractionText(ds) + after, acc as real) == (Onto(acc, ds, 10) as real, -|ds|, after)
  {
    hide Onto, TakeDigits, Decimal, Lower;
    if ds == [] {
      assert "" + after == after;
      TakeNone(acc, 10);
    } else {
      var s, d := FractionText(ds) + after, Decimal(ds) + after;
      assert s[0] == '.' && s[1..] == d;
      DecimalFront(ds, after);
      assert s[1] == d[0];
      DigitIs(ds[0]);
      TakeDigitsIs(ds, after, acc);
      DecimalLength(ds);
      assert |d| == |ds| + |after| && |s| == |d| + 1;
    }
  }

  lemma {:induction false} DecimalLength(ds: seq<nat>)
    requires Digits(ds, 10)
    ensures |Decimal(ds)| == |ds|
  {
    DecimalDenotes(ds);
  }

  /** Digits that do not begin with a zero; none stand for nothing. */
  lemma IntegerIs(ds: seq<nat>, after: string)
    requires Digits(ds, 10) && (ds != [] ==> ds[0] != 0)
    requires if ds == [] then !('1' <= Head(after) <= '9') else !IsDigit(Head(after))
    ensures var t := Decimal(ds) + after;
      (if '1' <= Head(t) <= '9' then TakeDigits(t[1..], DigitOf(t[0]) as real) else (0.0, t))
      == (Value(ds, 10) as real, after)
  {
    hide Onto, TakeDigits, Decimal, Lower, DigitOf;
    FromNothing(ds, 10);
    if ds == [] {
      DecimalNone(after);
      TakeNone(0, 10);
    } else {
      DecimalFront(ds, after);
      DigitIs(ds[0]);
      TakeDigitsIs(ds[1..], after, ds[0]);
      TakeOne(0, ds, 10);
    }
  }

  /** Every spelling is read to its end, and as the value it stands for. */
  lemma NumberIs(n: Num, rest: string)
    requires IsNum(n) && Stops(n, rest)
    ensures var s := NumText(n) + rest;
      (Head(s) == '-' || IsDigit(Head(s))) && ParseNumber(s) == (NumValue(n), rest)
  {
    hide *;
    Parts(n);
    var after := ExpText(n.exponent) + rest;
    var point := FractionText(n.fraction) + after;
    var digits := Decimal(n.digits) + point;
    var zero := (if n.zero then "0" else "") + digits;
    var s := NumText(n) + rest;
    Grouped(n, rest);
    Stopped(n, rest);
    FirstDigit(n.zero, n.digits, point);
    Skipped(n, digits);
    IntegerIs(n.digits, point);
    FractionIs(n.fraction, after, Value(n.digits, 10));
    OntoCat(n.digits, n.fraction, 10);
    ExponentIs(n.exponent, rest);
    Pow10Is(Power10(n.exponent) - |n.fraction|);
    NumberSteps(n, s, digits, point, after, rest);
  }

  lemma Stopped(n: Num, rest: string)
    requires IsNum(n) && Stops(n, rest)
    ensures var after := ExpText(n.exponent) + rest;
      var point := FractionText(n.fraction) + after;
      && ExpStops(n.exponent, rest) && FractionStops(n.fraction, after) && DigitsStop(n.zero, n.digits, point)
      && if n.digits == [] then !('1' <= Head(point) <= '9') else !IsDigit(Head(point))
  {
  }

  lemma Parts(n: Num)
    requires IsNum(n)
    ensures Digits(n.digits, 10) && Digits(n.fraction, 10) && IsExp(n.exponent)
    ensures (n.digits != [] ==> n.digits[0] != 0) && (n.minus || n.zero || n.digits != [])
  {
  }

  /** The sign and the leading zero. */
  lemma Skipped(n: Num, digits: string)
    requires n.zero || SkipOne(digits, '0') == digits
    requires n.minus || n.zero || IsDigit(Head(digits))
    ensures var s := (if n.minus then "-" else "") + ((if n.zero then "0" else "") + digits);
      && (Head(s) == '-' <==> n.minus) && (Head(s) == '-' || IsDigit(Head(s)))
      && SkipOne(SkipOne(s, '-'), '0') == digits
  {
    var zero := (if n.zero then "0" else "") + digits;
    var s := (if n.minus then "-" else "") + zero;
    if n.zero {
      assert zero[1..] == digits;
    } else {
      assert zero == digits;
    }
    if n.minus {
      assert s[1..] == zero;
    } else {
      assert s == zero;
    }
  }

  /** The steps of `parse_number`. */
  lemma NumberSteps(n: Num, s: string, digits: string, point: string, after: string, rest: string)
    requires (Head(s) == '-' <==> n.minus) && (Head(s) == '-' || IsDigit(Head(s)))
    requires SkipOne(SkipOne(s, '-'), '0') == digits
    requires (if '1' <= Head(digits) <= '9' then TakeDigits(digits[1..], DigitOf(digits[0]) as real) else (0.0, digits))
      == (Value(n.digits, 10) as real, point)
    requires Fraction(point, Value(n.digits, 10) as real)
      == (Value(n.digits + n.fraction, 10) as real, -|n.fraction|, after)
    requires Exponent(after) == (Power10(n.exponent), rest)
    requires Pow10(Power10(n.exponent) - |n.fraction|) == Ten(Power10(n.exponent) - |n.fraction|)
    ensures ParseNumber(s) == (NumValue(n), rest)
  {
    hide SkipOne, TakeDigits, Fraction, Exponent, Value, Power10, Ten, Pow10, DigitOf, Scaled, Mantissa;
    var m, k := Value(n.digits + n.fraction, 10), Power10(n.exponent) - |n.fraction|;
    Signed(n, m);
    ScaledBy(Mantissa(n) as real, k);
    assert -|n.fraction| + Power10(n.exponent) == k;
  }

  lemma Signed(n: Num, m: nat)
    requires m == Value(n.digits + n.fraction, 10)
    ensures Mantissa(n) as real == if n.minus then -(m as real) else m as real
  {
    hide Value;
  }

  lemma ScaledBy(m: real, k: int)
    requires Pow10(k) == Ten(k)
    ensures Scaled(m, k) == m * Ten(k)
  {
  }

  lemma Grouped(n: Num, rest: string)
    requires IsNum(n)
    ensures NumText(n) + rest == (if n.minus then "-" else "")
      + ((if n.zero then "0" else "")
         + (Decimal(n.digits) + (FractionText(n.fraction) + (ExpText(n.exponent) + rest))))
  {
    var sign, zero, d := if n.minus then "-" else "", if n.zero then "0" else "", Decimal(n.digits);
    var f, e := FractionText(n.fraction), ExpText(n.exponent);
    Seqs.Assoc(sign, zero + (d + (f + e)), rest);
    Seqs.Assoc(zero, d + (f + e), rest);
    Seqs.Assoc(d, f + e, rest);
    Seqs.Assoc(f, e, rest);
    hide *;
  }

  lemma FirstDigit(zero: bool, ds: seq<nat>, point: string)
    requires Digits(ds, 10) && (ds != [] ==> ds[0] != 0) && DigitsStop(zero, ds, point)
    ensures var t := Decimal(ds) + point; (zero || SkipOne(t, '0') == t) && (ds != [] ==> IsDigit(Head(t)))
  {
    hide Decimal, Lower;
    if ds == [] {
      DecimalNone(point);
    } else {
      DecimalFront(ds, point);
      DigitIs(ds[0]);
    }
  }

  /** Times ten to the power of `k`. */
  function Up(x: real, k: nat): real {
    x * Power(10, k) as real
  }

  /**
   For every number of section 6 of RFC 8259: the value read, times ten for each digit of the fraction, is the number
   made of all its digits times ten to the power of its exponent.
   */
  lemma NumberLaw(n: Num, rest: string)
    requires IsRfcNum(n) && Ends(rest)
    ensures var r := ParseNumber(NumText(n) + rest);
      var e := Power10(n.exponent);
      && r.1 == rest
      && if e >= 0 then Up(r.0, |n.fraction|) == Up(Mantissa(n) as real, e)
         else Up(Up(r.0, |n.fraction|), -e) == Mantissa(n) as real
  {
    hide ParseNumber, NumText, Up, Ten, Power10, Mantissa, Ends, Stops, IsNum;
    Rfc(n);
    EndsStops(n, rest);
    NumberIs(n, rest);
    Scaling(NumValue(n), Mantissa(n) as real, Power10(n.exponent), |n.fraction|);
  }

  lemma Rfc(n: Num)
    requires IsRfcNum(n)
    ensures IsNum(n)
  {
  }

  lemma Scaling(x: real, m: real, e: int, f: nat)
    requires x == m * Ten(e - f)
    ensures if e >= 0 then Up(x, f) == Up(m, e) else Up(Up(x, f), -e) == m
  {
    hide Ten, Power;
    TenAdd(e, f);
    TenIs(e);
    TenIs(f);
    Regrouped(m, Ten(e - f), Ten(f));
    assert Up(x, f) == m * Ten(e);
    if e < 0 {
      Unscaled(Up(x, f), m, e);
    }
  }

  lemma Unscaled(y: real, m: real, e: int)
    requires e < 0 && y == m * Ten(e)
    ensures Up(y, -e) == m
  {
    hide Ten, Power;
    TenIs(e);
    Cancel(m, Power(10, -e) as real);
  }

  lemma TenIs(e: int)
    ensures if e >= 0 then Ten(e) == Power(10, e) as real
            else Power(10, -e) as real > 0.0 && Ten(e) == 1.0 / Power(10, -e) as real
  {
    PowerPositive(10, if e < 0 then -e else e);
    hide Power;
  }

  lemma Regrouped(a: real, b: real, c: real)
    ensures a * b * c == a * (b * c)
  {
  }

  lemma TenAdd(e: int, f: nat)
    ensures Ten(e - f) * Ten(f) == Ten(e)
  {
    hide Power;
    var k := e - f;
    PowerPositive(10, f);
    if k >= 0 {
      PowerAdd(10, k, f);
      RealTimes(Power(10, k), Power(10, f));
    } else if e >= 0 {
      PowerAdd(10, -k, e);
      PowerPositive(10, -k);
      Quotient(Power(10, -k), Power(10, e), Power(10, f));
    } else {
      PowerAdd(10, -e, f);
      PowerPositive(10, -e);
      Inverse(Power(10, -e), Power(10, f), Power(10, -k));
    }
  }

  lemma RealTimes(a: nat, b: nat)
    ensures (a * b) as real == a as real * b as real
  {
  }

  lemma Quotient(a: nat, b: nat, c: nat)
    requires a > 0 && c == a * b
    ensures 1.0 / a as real * c as real == b as real
  {
    RealTimes(a, b);
    assert 1.0 / a as real * (a as real * b as real) == 1.0 / a as real * a as real * b as real;
  }

  lemma Inverse(a: nat, b: nat, c: nat)
    requires a > 0 && b > 0 && c == a * b
    ensures c > 0 && 1.0 / c as real * b as real == 1.0 / a as real
  {
    RealTimes(a, b);
    assert c > 0;
    var x, y := 1.0 / c as real * b as real, 1.0 / a as real;
    assert x * a as real == 1.0 / c as real * (a as real * b as real);
    assert x * a as real == 1.0 && y * a as real == 1.0;
  }

  // ----- what is taken for a number -----

  lemma {:induction false} SplitDigits(s: string) returns (ds: seq<nat>, rest: string)
    ensures Digits(ds, 10) && s == Decimal(ds) + rest && !IsDigit(Head(rest))
    ensures IsDigit(Head(s)) ==> ds != [] && DigitOf(s[0]) == ds[0]
    decreases |s|
  {
    if s == "" || !IsDigit(s[0]) {
      ds, rest := [], s;
      DecimalNone(rest);
    } else {
      var more;
      more, rest := SplitDigits(s[1..]);
      ds := [DigitOf(s[0]) as nat] + more;
      Spelled(s[0]);
      DecimalFront(ds, rest);
      assert ds[1..] == more;
      hide Decimal;
      assert s == [s[0]] + s[1..];
    }
  }

  lemma Spelled(c: char)
    requires IsDigit(c)
    ensures Lower(DigitOf(c)) == c
  {
  }

  lemma SplitSign(t: string) returns (sign: string, ds: seq<nat>, rest: string)
    ensures Digits(ds, 10) && t == sign + (Decimal(ds) + rest) && (sign == "" || sign == "+" || sign == "-")
    ensures !IsDigit(Head(rest)) && (sign == "" && ds == [] ==> Head(rest) != '+' && Head(rest) != '-')
  {
    sign := if Head(t) == '+' then "+" else if Head(t) == '-' then "-" else "";
    var u := if sign == "" then t else t[1..];
    assert t == sign + u;
    ds, rest := SplitDigits(u);
    hide Decimal;
    if ds == [] {
      DecimalNone(rest);
    }
  }

  lemma SplitExp(s: string) returns (e: Exp, rest: string)
    ensures IsExp(e) && s == ExpText(e) + rest && ExpStops(e, rest)
  {
    hide Decimal;
    if Head(s) == 'e' || Head(s) == 'E' {
      var sign, ds;
      sign, ds, rest := SplitSign(s[1..]);
      e := Exp(s[0], sign, ds);
      ExpShape(s[0], sign, Decimal(ds), rest);
      assert s == [s[0]] + s[1..];
    } else {
      e, rest := NoExp, s;
    }
  }

  lemma ExpShape(c: char, sign: string, p: string, rest: string)
    ensures [c] + (sign + p) + rest == [c] + (sign + (p + rest))
  {
  }

  lemma SplitFraction(s: string) returns (ds: seq<nat>, rest: string)
    ensures Digits(ds, 10) && s == FractionText(ds) + rest && FractionStops(ds, rest)
  {
    if Head(s) == '.' && IsDigit(Second(s)) {
      ds, rest := SplitDigits(s[1..]);
      hide Decimal;
      assert s == "." + s[1..];
    } else {
      ds, rest := [], s;
    }
  }

  lemma SplitZero(s: string) returns (zero: bool, ds: seq<nat>, rest: string)
    ensures Digits(ds, 10) && (ds != [] ==> ds[0] != 0) && s == (if zero then "0" else "") + (Decimal(ds) + rest)
    ensures DigitsStop(zero, ds, rest) && (IsDigit(Head(s)) ==> zero || ds != [])
  {
    zero := Head(s) == '0';
    var t := if zero then s[1..] else s;
    assert s == (if zero then "0" else "") + t;
    if '1' <= Head(t) <= '9' {
      ds, rest := SplitDigits(t);
      DigitIs(ds[0]);
      Spelled(t[0]);
    } else {
      ds, rest := [], t;
      DecimalNone(rest);
    }
    hide Decimal;
  }

  /** Whatever is read as a number is a spelling, and read as the value it stands for. */
  lemma OnlyNumbers(s: string) returns (n: Num, rest: string)
    requires Head(s) == '-' || IsDigit(Head(s))
    ensures IsNum(n) && s == NumText(n) + rest && ParseNumber(s) == (NumValue(n), rest)
  {
    var minus := Head(s) == '-';
    var t := if minus then s[1..] else s;
    assert s == (if minus then "-" else "") + t;
    var zero, digits, point := SplitZero(t);
    var fraction, after := SplitFraction(point);
    var e;
    e, rest := SplitExp(after);
    n := Num(minus, zero, digits, fraction, e);
    Grouped(n, rest);
    NumberIs(n, rest);
    hide *;
  }
}
