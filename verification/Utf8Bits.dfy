/**
 The two UTF-8 encoders, bit operation by bit operation: the length switch of
 cJSON and the bit count of ezXML.  Both give the form of RFC 3629.
 */
module Utf8Bits {
  import opened Arith
  import opened Bits
  import Utf8

  function Byte(x: nat): char {
    (x % 256) as char
  }

  // ----- bit operations as arithmetic -----

  lemma {:induction false} OrPlus(h: nat, n: nat, y: nat)
    requires y < Pow2(n)
    ensures Or(h * Pow2(n), y) == h * Pow2(n) + y
    decreases n
  {
    if n > 0 {
      Double(Pow2(n - 1), h);
      OrPlus(h, n - 1, y / 2);
      OrEven(h * Pow2(n - 1), y);
    }
  }

  /** One bit of an even number and another one. */
  lemma OrEven(x: nat, y: nat)
    ensures Or(2 * x, y) == 2 * Or(x, y / 2) + y % 2
  {
    if x > 0 && y > 0 {
      OrHalves(2 * x, y);
    }
  }

  lemma {:induction false} ShrDiv(x: nat, k: nat)
    ensures Shr(x, k) == x / Pow2(k)
    decreases k
  {
    if k > 0 {
      ShrDiv(x / 2, k - 1);
      HalfMod(x, Pow2(k - 1));
    }
  }

  /** Where `y` has no lowest bit and `z` has one, that of `x` stays. */
  lemma Peel(x: nat, y: nat, z: nat)
    ensures And(Or(x, 2 * y), 2 * z + 1) == 2 * And(Or(x / 2, y), z) + x % 2
  {
    AndOnes(Or(x, 2 * y), z + 1);
    OrDouble(x, y);
  }

  lemma OrDouble(x: nat, y: nat)
    ensures Or(x, 2 * y) / 2 == Or(x / 2, y) && Or(x, 2 * y) % 2 == x % 2
  {
    if x > 0 && y > 0 {
      OrHalves(x, 2 * y);
    }
  }

  // ----- cJSON: ((uc | 0x80) & 0xBF) -----

  function Mark(len: nat): nat {
    if len == 1 then 0x00 else if len == 2 then 0xC0 else if len == 3 then 0xE0 else 0xF0
  }

  /** The bytes that the fall-through switch writes, last one first, for the cases from `left` down. */
  function Switch(uc: nat, len: nat, left: nat): string {
    if left <= 1 then [Byte(Or(uc, Mark(len)))]
    else Switch(Shr(uc, 6), len, left - 1) + [Byte(And(Or(uc, 0x80), 0xBF))]
  }

  function SwitchEncode(uc: nat): string {
    var len := if uc < 0x80 then 1 else if uc < 0x800 then 2 else if uc < 0x10000 then 3 else 4;
    Switch(uc, len, len)
  }

  lemma {:induction false} KeepLow(x: nat, n: nat)
    ensures And(Or(x, 2 * Pow2(n)), 3 * Pow2(n) - 1) == 2 * Pow2(n) + x % Pow2(n)
    decreases n
  {
    if n == 0 {
      OneBit(x);
    } else {
      KeepLow(x / 2, n - 1);
      KeepStep(x, Pow2(n - 1));
    }
  }

  lemma KeepStep(x: nat, p: nat)
    requires p > 0 && And(Or(x / 2, 2 * p), 3 * p - 1) == 2 * p + x / 2 % p
    ensures And(Or(x, 2 * (2 * p)), 3 * (2 * p) - 1) == 2 * (2 * p) + x % (2 * p)
  {
    Peel(x, 2 * p, 3 * p - 1);
    HalfMod(x, p);
    assert 3 * (2 * p) - 1 == 2 * (3 * p - 1) + 1;
  }

  lemma OneBit(x: nat)
    ensures And(Or(x, 2), 2) == 2
  {
    var o := Or(x, 2);
    if x > 0 {
      OrHalves(x, 2);
      var h := Or(x / 2, 1);
      if x / 2 > 0 { OrHalves(x / 2, 1); }
      assert h % 2 == 1;
      assert And(o, 2) == 2 * And(h, 1);
      assert And(h, 1) == 1;
    }
  }

  lemma Continuation(uc: nat)
    ensures And(Or(uc, 0x80), 0xBF) == 0x80 + uc % 64
  {
    Pow6();
    KeepLow(uc, 6);
  }

  lemma Pow6()
    ensures Pow2(3) == 8 && Pow2(4) == 16 && Pow2(5) == 32 && Pow2(6) == 64 && Pow2(7) == 128
  {
    assert Pow2(3) == 8;
    assert Pow2(5) == 32;
  }

  lemma Head(y: nat, h: nat, n: nat)
    requires y < Pow2(n)
    ensures Or(y, h * Pow2(n)) == h * Pow2(n) + y
  {
    OrPlus(h, n, y);
    OrSwap(y, h * Pow2(n));
  }

  lemma {:induction false} OrSwap(x: nat, y: nat)
    ensures Or(x, y) == Or(y, x)
  {
    if x > 0 && y > 0 {
      OrSwap(x / 2, y / 2);
    }
  }

  lemma Low(uc: nat, left: nat, len: nat)
    requires left > 1
    ensures Switch(uc, len, left) == Switch(uc / 64, len, left - 1) + [(0x80 + uc % 64) as char]
  {
    Pow6();
    ShrDiv(uc, 6);
    Continuation(uc);
  }

  lemma Top(y: nat, len: nat, h: nat, n: nat)
    requires y < Pow2(n) && Mark(len) == h * Pow2(n) && h * Pow2(n) + y < 256
    ensures Switch(y, len, 1) == [(Mark(len) + y) as char]
  {
    Head(y, h, n);
  }

  lemma Switch2(uc: nat)
    requires 0x80 <= uc < 0x800
    ensures Switch(uc, 2, 2) == Utf8.Encode(uc)
  {
    Pow6();
    Low(uc, 2, 2);
    Top(uc / 64, 2, 6, 5);
  }

  function Tail(x: nat): char {
    (0x80 + x % 64) as char
  }

  lemma Encode3(uc: nat)
    requires 0x800 <= uc < 0x10000
    ensures Utf8.Encode(uc) == [(0xE0 + uc / 64 / 64) as char] + [Tail(uc / 64)] + [Tail(uc)]
  {
    DivDiv64(uc);
  }

  lemma DivDiv64(x: nat)
    ensures x / 64 / 64 == x / 4096
  {
  }

  lemma Encode4(uc: nat)
    requires 0x10000 <= uc < 0x110000
    ensures Utf8.Encode(uc)
      == [(0xF0 + uc / 64 / 64 / 64) as char] + [Tail(uc / 64 / 64)] + [Tail(uc / 64)] + [Tail(uc)]
  {
    DivDiv64(uc);
    assert uc / 4096 / 64 == uc / 262144;
  }

  lemma Switch3(uc: nat)
    requires 0x800 <= uc < 0x10000
    ensures Switch(uc, 3, 3) == [(0xE0 + uc / 64 / 64) as char] + [Tail(uc / 64)] + [Tail(uc)]
  {
    Pow6();
    Low(uc, 3, 3);
    Low(uc / 64, 2, 3);
    Top(uc / 64 / 64, 3, 14, 4);
  }

  lemma Switch4(uc: nat)
    requires 0x10000 <= uc < 0x110000
    ensures Switch(uc, 4, 4)
      == [(0xF0 + uc / 64 / 64 / 64) as char] + [Tail(uc / 64 / 64)] + [Tail(uc / 64)] + [Tail(uc)]
  {
    Pow6();
    Low(uc, 4, 4);
    Low(uc / 64, 3, 4);
    Low(uc / 64 / 64, 2, 4);
    Top(uc / 64 / 64 / 64, 4, 30, 3);
  }

  /** cJSON's encoder gives the form of section 3 of RFC 3629 for every code point. */
  lemma SwitchIsUtf8(uc: nat)
    requires 0 < uc < 0x110000
    ensures SwitchEncode(uc) == Utf8.Encode(uc)
  {
    if uc < 0x80 {
      Pow6();
      Top(uc, 1, 0, 7);
    } else if uc < 0x800 {
      Switch2(uc);
    } else if uc < 0x10000 {
      Switch3(uc);
      Encode3(uc);
    } else {
      Switch4(uc);
      Encode4(uc);
    }
  }

  // ----- ezXML: the head holds what the payload bytes leave -----

  /** `for (b = 0, d = c; d; d /= 2) b++;` */
  function Width(c: nat): (b: nat)
    ensures c > 0 ==> b > 0
  {
    if c == 0 then 0 else 1 + Width(c / 2)
  }

  lemma {:induction false} WidthBetween(c: nat, lo: nat, hi: nat)
    requires (lo > 0 ==> Pow2(lo - 1) <= c) && c < Pow2(hi)
    ensures lo <= Width(c) <= hi
    decreases c
  {
    if c > 0 {
      WidthBetween(c / 2, if lo > 0 then lo - 1 else 0, hi - 1);
    }
  }

  /** `while (b) *(s++) = 0x80 | ((c >> (6 * --b)) & 0x3F);` */
  function Payload(c: nat, b: nat): (s: string)
    ensures |s| == b
  {
    if b == 0 then "" else [Byte(Or(0x80, And(Shr(c, 6 * (b - 1)), 0x3F)))] + Payload(c, b - 1)
  }

  function BitEncode(c: nat): (s: string) {
    if c < 0x80 then [c as char]
    else
      var b := (Width(c) - 2) / 5;
      if b < 0 || b > 7 then "" else [Byte(Or(0xFF * Pow2(7 - b), Shr(c, 6 * b)))] + Payload(c, b)
  }

  lemma PayloadByte(x: nat)
    ensures Byte(Or(0x80, And(x, 0x3F))) == Tail(x)
  {
    Pow6();
    AndMask(x, 6);
    var m := x % 64;
    assert And(x, 0x3F) == m;
    OrPlus(2, 6, m);
    assert Or(0x80, m) == 0x80 + m;
  }

  lemma {:induction false} ShrAdd(x: nat, m: nat, n: nat)
    ensures Shr(x, m + n) == Shr(Shr(x, m), n)
    decreases m
  {
    if m > 0 {
      ShrAdd(x / 2, m - 1, n);
    }
  }

  lemma Shr6s(c: nat)
    ensures Shr(c, 0) == c && Shr(c, 6) == c / 64 && Shr(c, 12) == c / 64 / 64 && Shr(c, 18) == c / 64 / 64 / 64
  {
    Pow6();
    ShrDiv(c, 6);
    ShrDiv(c / 64, 6);
    ShrDiv(c / 64 / 64, 6);
    ShrAdd(c, 6, 6);
    ShrAdd(c, 12, 6);
  }

  lemma Pow2s()
    ensures Pow2(7) == 128 && Pow2(8) == 256 && Pow2(11) == 2048 && Pow2(16) == 65536 && Pow2(21) == 2097152
  {
    assert Pow2(4) == 16 && Pow2(7) == 128;
    assert Pow2(8) == 256 && Pow2(11) == 2048;
    assert Pow2(14) == 16384 && Pow2(16) == 65536;
    assert Pow2(19) == 524288 && Pow2(21) == 2097152;
  }

  /** The head byte: as many ones as there are bytes, a zero, and the highest bits. */
  lemma HeadByte(x: nat, n: nat)
    requires 2 <= n <= 6 && x < Pow2(n)
    ensures Pow2(n) <= 64 && Byte(Or(0xFF * Pow2(n), x)) == (256 - Pow2(n) + x) as char
  {
    OrPlus(0xFF, n, x);
    assert Pow2(2) == 4 && Pow2(3) == 8 && Pow2(4) == 16;
    assert Pow2(5) == 32 && Pow2(6) == 64;
  }

  lemma PayloadStep(c: nat, b: nat)
    requires b > 0
    ensures Payload(c, b) == [Tail(Shr(c, 6 * (b - 1)))] + Payload(c, b - 1)
  {
    PayloadByte(Shr(c, 6 * (b - 1)));
  }

  lemma Payloads(c: nat)
    ensures Payload(c, 1) == [Tail(c)]
    ensures Payload(c, 2) == [Tail(c / 64)] + [Tail(c)]
    ensures Payload(c, 3) == [Tail(c / 64 / 64)] + ([Tail(c / 64)] + [Tail(c)])
  {
    Shr6s(c);
    PayloadStep(c, 1);
    PayloadStep(c, 2);
    PayloadStep(c, 3);
    assert Payload(c, 0) == "";
  }

  /** With `b` payload bytes. */
  lemma BitEncodeIs(c: nat, b: nat)
    requires 1 <= b <= 5 && c >= 0x80 && 5 * b + 2 <= Width(c) <= 5 * b + 6 && Shr(c, 6 * b) < Pow2(7 - b)
    ensures Pow2(7 - b) <= 64 && BitEncode(c) == [(256 - Pow2(7 - b) + Shr(c, 6 * b)) as char] + Payload(c, b)
  {
    HeadByte(Shr(c, 6 * b), 7 - b);
  }

  lemma Bits2(c: nat)
    requires 0x80 <= c < 0x800
    ensures BitEncode(c) == Utf8.Encode(c)
  {
    Pow6();
    Pow2s();
    Shr6s(c);
    WidthBetween(c, 8, 11);
    BitEncodeIs(c, 1);
    Payloads(c);
  }

  lemma Bits3(c: nat)
    requires 0x800 <= c < 0x10000
    ensures BitEncode(c) == [(0xE0 + c / 64 / 64) as char] + ([Tail(c / 64)] + [Tail(c)])
  {
    Pow6();
    Pow2s();
    Shr6s(c);
    WidthBetween(c, 12, 16);
    BitEncodeIs(c, 2);
    Payloads(c);
  }

  lemma Bits4(c: nat)
    requires 0x10000 <= c < 0x110000
    ensures BitEncode(c) == [(0xF0 + c / 64 / 64 / 64) as char] + ([Tail(c / 64 / 64)] + ([Tail(c / 64)] + [Tail(c)]))
  {
    Pow6();
    Pow2s();
    Shr6s(c);
    WidthBetween(c, 17, 21);
    BitEncodeIs(c, 3);
    Payloads(c);
  }

  /** ezXML's encoder gives the form of section 3 of RFC 3629 for every code point. */
  lemma BitsAreUtf8(c: nat)
    requires 0 < c < 0x110000
    ensures BitEncode(c) == Utf8.Encode(c)
  {
    if c < 0x80 {
    } else if c < 0x800 {
      Bits2(c);
    } else if c < 0x10000 {
      Bits3(c);
      Encode3(c);
    } else {
      Bits4(c);
      Encode4(c);
    }
  }

  /** The two encoders agree. */
  lemma EncodersAgree(c: nat)
    requires 0 < c < 0x110000
    ensures SwitchEncode(c) == BitEncode(c)
  {
    SwitchIsUtf8(c);
    BitsAreUtf8(c);
  }

  lemma {:induction false} WidthPow(c: nat)
    ensures c < Pow2(Width(c))
  {
    if c > 0 {
      WidthPow(c / 2);
    }
  }

  lemma {:induction false} ShrBound(c: nat, m: nat, n: nat)
    requires c < Pow2(m + n)
    ensures Shr(c, m) < Pow2(n)
    decreases m
  {
    if m > 0 {
      ShrBound(c / 2, m - 1, n);
    }
  }

  lemma {:induction false} PayloadHigh(c: nat, b: nat)
    ensures forall i :: 0 <= i < b ==> Payload(c, b)[i] >= 0x80 as char
  {
    if b > 0 {
      PayloadStep(c, b);
      PayloadHigh(c, b - 1);
    }
  }

  /** For every positive `long` of 32 bits: at most six bytes, none of them zero. */
  lemma BitEncodeSafe(c: nat)
    requires 0 < c < 0x8000_0000
    ensures 1 <= |BitEncode(c)| <= 6 && forall i :: 0 <= i < |BitEncode(c)| ==> BitEncode(c)[i] != '\0'
  {
    if c >= 0x80 {
      var w := Width(c);
      var b := (w - 2) / 5;
      Pow2s();
      Pow31();
      WidthBetween(c, 8, 31);
      WidthPow(c);
      Pow2Monotone(w, 6 * b + (7 - b));
      ShrBound(c, 6 * b, 7 - b);
      BitEncodeIs(c, b);
      PayloadHigh(c, b);
    }
  }

  lemma Pow31()
    ensures Pow2(31) == 0x8000_0000
  {
    assert Pow2(8) == 256 && Pow2(16) == 65536;
    assert Pow2(24) == 0x100_0000 && Pow2(31) == 0x8000_0000;
  }
}
