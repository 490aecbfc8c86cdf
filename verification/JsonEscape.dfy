/** Escapes of code points in JSON strings: `\u` and four hexadecimal digits for each unit of UTF-16. */
module JsonEscape {
  import opened CText
  import opened JsonParse
  import opened Utf16
  import Utf8

  /** Four hexadecimal digits, in either case, that stand for `u`. */
  predicate Spells(a: string, u: nat) {
    |a| == 4 && (forall i :: 0 <= i < 4 ==> IsHex(a[i])) && Hex4(a) == u
  }

  lemma Front(a: string, rest: string)
    requires |a| == 4
    ensures |a + rest| >= 4 && (a + rest)[4..] == rest && Hex4(a + rest) == Hex4(a)
  {
  }

  /** A character of the basic plane. */
  lemma OneEscape(c: nat, a: string, post: string)
    requires IsScalar(c) && c < 0x10000 && Spells(a, c)
    ensures UnicodeEscape(a + post) == Parsed(Utf8.Encode(c), post)
  {
    Front(a, post);
  }

  lemma PairValue(c: nat)
    requires 0x10000 <= c < 0x110000
    ensures var u := Units(c);
      |u| == 2 && 0xD800 <= u[0] < 0xDC00 <= u[1] < 0xE000 && 0x10000 + u[0] % 0x400 * 0x400 + u[1] % 0x400 == c
  {
    var u := Units(c);
    PairUndoes(c);
    PairIs(u[0], u[1]);
  }

  /** A surrogate pair gives the character whose units they are. */
  lemma PairEscape(c: nat, a: string, b: string, post: string)
    requires 0x10000 <= c < 0x110000 && Spells(a, Units(c)[0]) && Spells(b, Units(c)[1])
    ensures UnicodeEscape(a + ("\\u" + (b + post))) == Parsed(Utf8.Encode(c), post)
  {
    hide Hex4, Utf8.Encode, Units, IsHex;
    PairValue(c);
    Front(a, "\\u" + (b + post));
    Front(b, post);
    var s := a + ("\\u" + (b + post));
    assert s[4..] == "\\u" + (b + post) && s[6..] == b + post && s[10..] == post;
  }

  // ----- whole strings -----

  function HexDigit(n: nat): (c: char)
    requires n < 16
    ensures IsHex(c) && HexValue(c) == n
  {
    if n < 10 then '0' + n as char else 'A' + (n - 10) as char
  }

  lemma Nibbles(u: nat)
    ensures u == 4096 * (u / 4096) + 256 * (u / 256 % 16) + 16 * (u / 16 % 16) + u % 16
  {
    var a, b := u / 16, u / 256;
    assert a / 16 == b && b / 16 == u / 4096;
    assert u == 16 * a + u % 16 && a == 16 * b + a % 16 && b == 16 * (b / 16) + b % 16;
  }

  function HexText(u: nat): (s: string)
    requires u < 0x10000
  {
    [HexDigit(u / 4096), HexDigit(u / 256 % 16), HexDigit(u / 16 % 16), HexDigit(u % 16)]
  }

  lemma HexSpells(u: nat)
    requires u < 0x10000
    ensures Spells(HexText(u), u)
  {
    hide HexDigit;
    Nibbles(u);
  }

  function Escape(c: nat): string
    requires IsScalar(c)
  {
    var u := Units(c);
    "\\u" + HexText(u[0]) + (if |u| == 1 then "" else "\\u" + HexText(u[1]))
  }

  function Escapes(cs: seq<nat>): string
    requires forall i :: 0 <= i < |cs| ==> IsScalar(cs[i])
  {
    if cs == [] then ""
    else
      assert IsScalar(cs[0]);
      Escape(cs[0]) + Escapes(cs[1..])
  }

  lemma Opened(x: string)
    ensures var s := "\\u" + x; Head(s) == '\\' && Unescape(s[1..]) == UnicodeEscape(x)
  {
    assert ("\\u" + x)[1..][1..] == x;
  }

  lemma Regroup(a: string, b: string, c: string, d: string, e: string)
    ensures a + b + "" + e == a + (b + e) && a + b + (c + d) + e == a + (b + (c + (d + e)))
  {
  }

  lemma EscapeBack(c: nat, post: string)
    requires IsScalar(c)
    ensures var s := Escape(c) + post; Head(s) == '\\' && Unescape(s[1..]) == Parsed(Utf8.Encode(c), post)
  {
    hide Spells, Hex4, HexText, Utf8.Encode, UnicodeEscape, Unescape;
    var u := Units(c);
    HexSpells(u[0]);
    if c < 0x10000 {
      Regroup("\\u", HexText(u[0]), "", "", post);
      Opened(HexText(u[0]) + post);
      OneEscape(c, HexText(u[0]), post);
    } else {
      PairUndoes(c);
      HexSpells(u[1]);
      Regroup("\\u", HexText(u[0]), "\\u", HexText(u[1]), post);
      Opened(HexText(u[0]) + ("\\u" + (HexText(u[1]) + post)));
      PairEscape(c, HexText(u[0]), HexText(u[1]), post);
    }
  }

  lemma EscapeStep(c: nat, post: string)
    requires IsScalar(c) && StringBody(post).Parsed?
    ensures StringBody(Escape(c) + post) == Parsed(Utf8.Encode(c) + StringBody(post).value, StringBody(post).rest)
  {
    hide Escape, Unescape, Utf8.Encode;
    EscapeBack(c, post);
  }

  /** A string written in escapes is parsed to the UTF-8 form of its characters. */
  lemma {:induction false} EscapesBack(cs: seq<nat>, post: string)
    requires forall i :: 0 <= i < |cs| ==> IsScalar(cs[i])
    ensures StringBody(Escapes(cs) + ("\"" + post)) == Parsed(Utf8Text(cs), post)
  {
    hide Escape, Utf8.Encode;
    var close := "\"" + post;
    if cs == [] {
      assert "" + close == close && close[1..] == post;
    } else {
      var c, rest := cs[0], cs[1..];
      EscapesBack(rest, post);
      EscapeStep(c, Escapes(rest) + close);
      assert Escape(c) + Escapes(rest) + close == Escape(c) + (Escapes(rest) + close);
    }
  }
}
