/**
 `ezxml_str2utf8`: a document in UTF-16, marked by its byte order, becomes one
 in UTF-8.  The pairing of surrogates is the one cJSON uses for escapes.
 */
module Utf16 {
  import Seqs
  import opened Bits
  import opened Utf8Bits
  import Utf8
  import opened XmlWriter

  predicate IsScalar(c: nat) {
    0 < c < 0x110000 && !(0xD800 <= c <= 0xDFFF)
  }

  // ----- the encoding, section 2.1 of RFC 2781 -----

  function Units(c: nat): seq<nat> {
    if c < 0x10000 then [c] else [0xD800 + (c - 0x10000) / 0x400, 0xDC00 + (c - 0x10000) % 0x400]
  }

  function UnitsOf(cs: seq<nat>): seq<nat> {
    if cs == [] then [] else Units(cs[0]) + UnitsOf(cs[1..])
  }

  function UnitBytes(u: nat, be: bool): string {
    if be then [Byte(u / 256), Byte(u)] else [Byte(u), Byte(u / 256)]
  }

  function BytesOf(us: seq<nat>, be: bool): string {
    if us == [] then "" else UnitBytes(us[0], be) + BytesOf(us[1..], be)
  }

  /** The characters `cs` in UTF-16 with a byte order mark. */
  function Utf16Text(cs: seq<nat>, be: bool): string {
    UnitBytes(0xFEFF, be) + BytesOf(UnitsOf(cs), be)
  }

  function Utf8Text(cs: seq<nat>): string
    requires forall i :: 0 <= i < |cs| ==> IsScalar(cs[i])
  {
    if cs == [] then ""
    else
      assert IsScalar(cs[0]);
      Utf8.Encode(cs[0]) + Utf8Text(cs[1..])
  }

  // ----- pairs -----

  /** `(((c & 0x3FF) << 10) | (d & 0x3FF)) + 0x10000` */
  function Pair(c: nat, d: nat): nat {
    Or(And(c, 0x3FF) * Pow2(10), And(d, 0x3FF)) + 0x10000
  }

  lemma Pow10()
    ensures Pow2(10) == 1024
  {
    assert Pow2(5) == 32 && Pow2(10) == 1024;
  }

  lemma PairIs(c: nat, d: nat)
    ensures Pair(c, d) == c % 0x400 * 0x400 + d % 0x400 + 0x10000
  {
    Pow10();
    AndMask(c, 10);
    AndMask(d, 10);
    OrPlus(c % 0x400, 10, d % 0x400);
  }

  /** The decoder of pairs inverts the encoder. */
  lemma PairUndoes(c: nat)
    requires 0x10000 <= c < 0x110000
    ensures var u := Units(c); 0xD800 <= u[0] < 0xDC00 <= u[1] < 0xE000 && Pair(u[0], u[1]) == c
  {
    var u := Units(c);
    PairIs(u[0], u[1]);
    var x := c - 0x10000;
    assert 0xD800 % 0x400 == 0 && 0xDC00 % 0x400 == 0;
    assert (0xD800 + x / 0x400) % 0x400 == x / 0x400;
    assert (0xDC00 + x % 0x400) % 0x400 == x % 0x400;
  }

  // ----- the conversion -----

  /** The unit at `i`. */
  function UnitAt(s: string, i: nat, be: bool): (u: nat)
    requires i + 1 < |s|
  {
    if be then (s[i] as nat % 256) * 256 + s[i + 1] as nat % 256 else (s[i + 1] as nat % 256) * 256 + s[i] as nat % 256
  }

  /** The character at `i` and where it ends. */
  function CharAt(s: string, i: nat, be: bool): (r: (nat, nat))
    requires i + 1 < |s|
    ensures i < r.1
  {
    var c := UnitAt(s, i, be);
    if 0xD800 <= c <= 0xDFFF then
      if i + 3 < |s| then (Pair(c, UnitAt(s, i + 2, be)), i + 4) else (c, i + 4)
    else (c, i + 2)
  }

  function Convert(s: string, i: nat, be: bool): string
    decreases |s| - i
  {
    if i + 1 < |s| then BitEncode(CharAt(s, i, be).0) + Convert(s, CharAt(s, i, be).1, be) else ""
  }

  lemma UnitBack(u: nat, be: bool, a: string, b: string)
    requires u < 0x10000
    ensures |a| + 1 < |a + UnitBytes(u, be) + b| && UnitAt(a + UnitBytes(u, be) + b, |a|, be) == u
  {
    var s := a + UnitBytes(u, be) + b;
    assert s[|a|] == UnitBytes(u, be)[0] && s[|a| + 1] == UnitBytes(u, be)[1];
  }

  lemma {:induction false} BytesCat(us: seq<nat>, vs: seq<nat>, be: bool)
    ensures BytesOf(us + vs, be) == BytesOf(us, be) + BytesOf(vs, be)
  {
    if us == [] {
      assert us + vs == vs;
    } else {
      assert (us + vs)[1..] == us[1..] + vs;
      BytesCat(us[1..], vs, be);
    }
  }

  lemma OneUnit(a: string, c: nat, b: string, be: bool)
    requires IsScalar(c) && c < 0x10000
    ensures BytesOf(Units(c), be) == UnitBytes(c, be)
    ensures var s := a + (UnitBytes(c, be) + b); |a| + 1 < |s| && CharAt(s, |a|, be) == (c, |a| + 2)
  {
    assert UnitBytes(c, be) + "" == UnitBytes(c, be);
    Seqs.Assoc(a, UnitBytes(c, be), b);
    UnitBack(c, be, a, b);
  }

  lemma TwoBytes(u: nat, v: nat, be: bool)
    ensures BytesOf([u, v], be) == UnitBytes(u, be) + UnitBytes(v, be)
  {
    assert [u, v][1..] == [v];
    assert BytesOf([v], be) == UnitBytes(v, be) + "";
  }

  lemma TwoUnitsAt(a: string, u: nat, v: nat, b: string, be: bool)
    requires u < 0x10000 && v < 0x10000
    ensures var s := a + (UnitBytes(u, be) + UnitBytes(v, be) + b);
      |a| + 3 < |s| && UnitAt(s, |a|, be) == u && UnitAt(s, |a| + 2, be) == v
  {
    var x, y := UnitBytes(u, be), UnitBytes(v, be);
    Seqs.Assoc(x, y, b);
    Seqs.Assoc(a, x, y + b);
    UnitBack(u, be, a, y + b);
    Seqs.Assoc(a + x, y, b);
    UnitBack(v, be, a + x, b);
  }

  lemma TwoUnits(a: string, c: nat, b: string, be: bool)
    requires IsScalar(c) && c >= 0x10000
    ensures var s := a + (BytesOf(Units(c), be) + b);
      |a| + 1 < |s| && CharAt(s, |a|, be) == (c, |a| + 4) && |BytesOf(Units(c), be)| == 4
  {
    var u := Units(c);
    PairUndoes(c);
    TwoBytes(u[0], u[1], be);
    TwoUnitsAt(a, u[0], u[1], b, be);
  }

  /** One character of the text. */
  lemma OneChar(a: string, c: nat, b: string, be: bool)
    requires IsScalar(c)
    ensures var s := a + (BytesOf(Units(c), be) + b);
      |a| + 1 < |s| && CharAt(s, |a|, be) == (c, |a| + |BytesOf(Units(c), be)|)
  {
    if c < 0x10000 {
      OneUnit(a, c, b, be);
    } else {
      TwoUnits(a, c, b, be);
    }
  }

  lemma {:induction false} ConvertAll(a: string, cs: seq<nat>, be: bool)
    requires forall i :: 0 <= i < |cs| ==> IsScalar(cs[i])
    ensures Convert(a + BytesOf(UnitsOf(cs), be), |a|, be) == Utf8Text(cs)
    decreases |cs|
  {
    if cs != [] {
      hide Units, BytesOf, Convert, BitEncode, Utf8.Encode;
      var bytes, rest := BytesOf(Units(cs[0]), be), BytesOf(UnitsOf(cs[1..]), be);
      BytesCat(Units(cs[0]), UnitsOf(cs[1..]), be);
      ConvertOne(a, cs[0], rest, be);
      ConvertAll(a + bytes, cs[1..], be);
    }
  }

  /** The first character behind `a` converted. */
  lemma ConvertOne(a: string, c: nat, rest: string, be: bool)
    requires IsScalar(c)
    ensures var bytes := BytesOf(Units(c), be);
      Convert(a + (bytes + rest), |a|, be) == Utf8.Encode(c) + Convert((a + bytes) + rest, |a + bytes|, be)
  {
    hide Units, BytesOf, BitEncode, Utf8.Encode, CharAt;
    var bytes := BytesOf(Units(c), be);
    OneChar(a, c, rest, be);
    Seqs.Assoc(a, bytes, rest);
    BitsAreUtf8(c);
  }

  /** A text in UTF-16, in either byte order, becomes the same text in UTF-8. */
  lemma ConvertIsUtf8(cs: seq<nat>, be: bool)
    requires forall i :: 0 <= i < |cs| ==> IsScalar(cs[i])
    ensures Convert(Utf16Text(cs, be), 2, be) == Utf8Text(cs)
  {
    ConvertAll(UnitBytes(0xFEFF, be), cs, be);
  }

  /** `ezxml_str2utf8`: nothing to do, or the converted text. */
  method Str2Utf8(s: string) returns (done: bool, u: array<char>, l: nat)
    requires s != ""
    ensures done <==> s[0] == 0xFE as char || s[0] == 0xFF as char
    ensures l <= u.Length && u[..l] == if done then Convert(s, 2, s[0] == 0xFE as char) else ""
  {
    var be := s[0] == 0xFE as char;
    done := be || s[0] == 0xFF as char;
    u := new char[|s|];
    l := 0;
    if !done {
      return;
    }
    var sl := 2;
    ghost var w := "";
    while sl + 1 < |s|
      invariant l <= u.Length && u[..l] == w && fresh(u) && w + Convert(s, sl, be) == Convert(s, 2, be)
      decreases |s| - sl
    {
      var r := CharAt(s, sl, be);
      var b := BitEncode(r.0);
      AssocConvert(w, s, sl, be);
      u, l := Put(u, l, b, w);
      w := w + b;
      sl := r.1;
    }
    assert w + "" == w;
  }

  lemma AssocConvert(w: string, s: string, i: nat, be: bool)
    requires i + 1 < |s|
    ensures w + Convert(s, i, be) == w + BitEncode(CharAt(s, i, be).0) + Convert(s, CharAt(s, i, be).1, be)
  {
    Seqs.Assoc(w, BitEncode(CharAt(s, i, be).0), Convert(s, CharAt(s, i, be).1, be));
  }

  /** The bytes of one character; at least six are reserved. */
  method Put(u: array<char>, l: nat, b: string, ghost w: string) returns (r: array<char>, n: nat)
    requires l <= u.Length && u[..l] == w
    modifies u
    ensures n <= r.Length && r[..n] == w + b && (r == u || fresh(r))
  {
    r := Room(u, l, if |b| < 6 then 6 else |b|);
    n := l;
    var i := 0;
    while i < |b|
      invariant i <= |b| && n == l + i && n <= r.Length && r[..n] == w + b[..i]
    {
      r[n] := b[i];
      assert b[..i + 1] == b[..i] + [b[i]];
      n, i := n + 1, i + 1;
    }
    assert b[..i] == b;
  }
}
