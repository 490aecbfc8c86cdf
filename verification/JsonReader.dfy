/**
 The cJSON parser as it runs: an index moving over the text, a string buffer
 sized in a first pass, nodes linked into child lists.
 */
module JsonReader {
  import opened CText
  import opened JsonText
  import opened JsonParse
  import opened JsonItem
  import opened Utf8

  /** `*ptr` */
  function At(text: string, p: nat): (c: char)
    ensures p <= |text| ==> c == Head(text[p..])
  {
    if p < |text| then text[p] else '\0'
  }

  /** One step of a pointer along a string. */
  lemma Step(text: string, p: nat)
    requires p < |text|
    ensures text[p..] != "" && text[p..][0] == text[p] && text[p..][1..] == text[p + 1..]
  {
  }

  lemma Steps(text: string, p: nat, n: nat)
    requires p + n <= |text|
    ensures text[p..][n..] == text[p + n..]
    ensures n < |text| - p ==> text[p..][n] == text[p + n]
  {
  }

  /** A text holds `word` at `p`. */
  lemma Prefix(text: string, p: nat, word: string)
    requires p <= |text|
    ensures word <= text[p..] <==> p + |word| <= |text| && text[p..p + |word|] == word
  {
    if p + |word| <= |text| {
      assert text[p..][..|word|] == text[p..p + |word|];
    }
  }

  method Skip(text: string, start: nat) returns (p: nat)
    requires NulFree(text) && start <= |text|
    ensures start <= p <= |text| && text[p..] == JsonParse.Skip(text[start..])
  {
    p := start;
    while At(text, p) != '\0' && At(text, p) <= ' '
      invariant start <= p <= |text| && JsonParse.Skip(text[p..]) == JsonParse.Skip(text[start..])
      decreases |text| - p
    {
      Step(text, p);
      p := p + 1;
    }
  }

  // ----- numbers -----

  method Digits(text: string, start: nat, n0: real) returns (p: nat, n: real)
    requires start <= |text|
    ensures start <= p <= |text| && (n, text[p..]) == TakeDigits(text[start..], n0)
  {
    p, n := start, n0;
    while IsDigit(At(text, p))
      invariant start <= p <= |text| && TakeDigits(text[p..], n) == TakeDigits(text[start..], n0)
      decreases |text| - p
    {
      Step(text, p);
      n := n * 10.0 + DigitOf(At(text, p)) as real;
      p := p + 1;
    }
  }

  /** A leading zero, then the digits. */
  method Integer(text: string, start: nat) returns (p: nat, n: real)
    requires start <= |text|
    ensures start <= p <= |text|
    ensures var t := SkipOne(text[start..], '0');
      (n, text[p..]) == if '1' <= Head(t) <= '9' then TakeDigits(t[1..], DigitOf(t[0]) as real) else (0.0, t)
  {
    p, n := start, 0.0;
    if At(text, p) == '0' {
      Step(text, p);
      p := p + 1;
    }
    if '1' <= At(text, p) <= '9' {
      Step(text, p);
      n := DigitOf(At(text, p)) as real;
      p := p + 1;
      p, n := Digits(text, p, n);
    }
  }

  method Fraction(text: string, start: nat, n0: real) returns (p: nat, n: real, scale: int)
    requires start <= |text|
    ensures start <= p <= |text| && JsonParse.Fraction(text[start..], n0) == (n, scale, text[p..])
  {
    p, n, scale := start, n0, 0;
    if At(text, p) == '.' && IsDigit(At(text, p + 1)) {
      Step(text, p);
      Steps(text, p, 1);
      p, n := Digits(text, p + 1, n);
      scale := start + 1 - p;
    } else if start < |text| {
      Steps(text, p, 1);
    }
  }

  method Exponent(text: string, start: nat) returns (k: int, p: nat)
    requires start <= |text|
    ensures start <= p <= |text| && JsonParse.Exponent(text[start..]) == (k, text[p..])
  {
    p, k := start, 0;
    if At(text, p) == 'e' || At(text, p) == 'E' {
      Step(text, p);
      p := p + 1;
      var negative := false;
      if At(text, p) == '+' {
        Steps(text, start, 2);
        p := p + 1;
      } else if At(text, p) == '-' {
        Step(text, p);
        negative := true;
        p := p + 1;
      }
      var n;
      p, n := Digits(text, p, 0.0);
      k := if negative then -n.Floor else n.Floor;
    }
  }

  /** The value of a number's text. */
  method Number(text: string, start: nat) returns (p: nat, d: real)
    requires start < |text| && (text[start] == '-' || IsDigit(text[start]))
    ensures start < p <= |text|
    ensures d == JsonParse.ParseNumber(text[start..]).0 && text[p..] == JsonParse.ParseNumber(text[start..]).1
  {
    p := start;
    ghost var s := text[start..];
    var sign := 1;
    if At(text, p) == '-' {
      sign := -1;
      Step(text, p);
      p := p + 1;
    }
    ghost var t := text[p..];
    assert t == SkipOne(s, '-') && (sign == -1 <==> Head(s) == '-');
    var n, m, scale, subscale;
    p, n := Integer(text, p);
    ghost var u := text[p..];
    p, m, scale := Fraction(text, p, n);
    ghost var v := text[p..];
    subscale, p := Exponent(text, p);
    d := Scaled(if sign == -1 then -m else m, scale + subscale);
    NumberParts(s, SkipOne(t, '0'), n, u, m, scale, v, subscale, text[p..]);
    assert |text[p..]| < |s|;
  }

  lemma NumberParts(s: string, t: string, n: real, u: string, m: real, scale: int, v: string, subscale: int,
                    rest: string)
    requires Head(s) == '-' || IsDigit(Head(s))
    requires t == SkipOne(SkipOne(s, '-'), '0')
    requires (n, u) == if '1' <= Head(t) <= '9' then TakeDigits(t[1..], DigitOf(t[0]) as real) else (0.0, t)
    requires JsonParse.Fraction(u, n) == (m, scale, v) && JsonParse.Exponent(v) == (subscale, rest)
    ensures JsonParse.ParseNumber(s).0 == Scaled(if Head(s) == '-' then -m else m, scale + subscale)
    ensures JsonParse.ParseNumber(s).1 == rest
  {
  }

  /** `parse_number` */
  method ParseNumber(item: CJson, text: string, start: nat) returns (p: nat)
    requires start < |text| && (text[start] == '-' || IsDigit(text[start]))
    modifies item`kind, item`valuedouble
    ensures start < p <= |text| && item.kind == KNumber
    ensures item.valuedouble == JsonParse.ParseNumber(text[start..]).0
    ensures text[p..] == JsonParse.ParseNumber(text[start..]).1
  {
    var d;
    p, d := Number(text, start);
    item.kind := KNumber;
    item.valuedouble := d;
  }

  // ----- strings -----

  /** Every `\u` of the literal whose text is `s` is followed by four hexadecimal digits. */
  predicate WellEscaped(s: string) {
    s == "" || s[0] == '\"' ||
    (if s[0] != '\\' then WellEscaped(s[1..])
     else
       |s| > 1 &&
       if s[1] != 'u' then WellEscaped(s[2..])
       else |s| >= 6 && IsHex(s[2]) && IsHex(s[3]) && IsHex(s[4]) && IsHex(s[5]) && WellEscaped(s[6..]))
  }

  /** What the first pass of `parse_string` counts: an escape is one character. */
  function Counted(s: string): nat {
    if s == "" || s[0] == '\"' then 0
    else if s[0] != '\\' || |s| < 2 then 1 + Counted(s[1..])
    else 1 + Counted(s[2..])
  }

  predicate FourHex(t: string) {
    |t| >= 4 && IsHex(t[0]) && IsHex(t[1]) && IsHex(t[2]) && IsHex(t[3])
  }

  /** An escape of four digits gives at most three bytes, a surrogate pair four. */
  lemma UnicodeShort(t: string)
    requires FourHex(t) && ("\\u" <= t[4..] ==> FourHex(t[6..]))
    ensures UnicodeEscape(t).Parsed?
    ensures var r := UnicodeEscape(t);
      || (r.rest == t[4..] && |r.value| <= 3)
      || ("\\u" <= t[4..] && r.rest == t[10..] && |r.value| <= 4)
  {
  }

  /** The buffer sized by the first pass holds the decoded string. */
  lemma {:induction false} CountedEnough(s: string)
    requires WellEscaped(s)
    ensures StringBody(s).Parsed? && |StringBody(s).value| <= Counted(s)
    decreases |s|
  {
    if s == "" || s[0] == '\"' {
    } else if s[0] != '\\' {
      CountedEnough(s[1..]);
    } else if s[1] != 'u' {
      assert s[1..][1..] == s[2..];
      CountedEnough(s[2..]);
    } else {
      CountedUnicode(s);
      var e := UnicodeEscape(s[2..]);
      assert s[1..][1..] == s[2..];
      CountedEnough(e.rest);
    }
  }

  lemma CountedUnicode(s: string)
    requires WellEscaped(s) && "\\u" <= s
    ensures var e := UnicodeEscape(s[2..]);
      e.Parsed? && WellEscaped(e.rest) && |e.rest| < |s| && |e.value| + Counted(e.rest) <= Counted(s)
  {
    var t := s[2..];
    var u := s[6..];
    HexCounted(s);
    assert t[4..] == u;
    assert FourHex(t);
    if "\\u" <= u {
      assert WellEscaped(u) && u[0] == '\\' && u[1] == 'u';
      HexCounted(u);
      assert t[6..] == u[2..] && t[10..] == u[6..];
    }
    UnicodeShort(t);
  }

  lemma HexCounted(s: string)
    requires |s| >= 6 && s[0] == '\\' && IsHex(s[2]) && IsHex(s[3]) && IsHex(s[4]) && IsHex(s[5])
    ensures Counted(s) == 5 + Counted(s[6..])
  {
    assert Counted(s) == 1 + Counted(s[2..]);
    assert s[2..][1..] == s[3..] && s[3..][1..] == s[4..] && s[4..][1..] == s[5..] && s[5..][1..] == s[6..];
    assert Counted(s[4..]) == 1 + Counted(s[5..]) && Counted(s[5..]) == 1 + Counted(s[6..]);
    assert Counted(s[2..]) == 1 + Counted(s[3..]) && Counted(s[3..]) == 1 + Counted(s[4..]);
  }

  /** `code` without its `n` lowest groups of six bits. */
  function Shifted(code: int, n: nat): int {
    if n == 0 then code else Shifted(code, n - 1) / 64
  }

  /** The bytes of the `n` lowest groups. */
  function Trail(code: int, n: nat): (s: string)
    ensures |s| == n
  {
    if n == 0 then "" else [(0x80 + Shifted(code, n - 1) % 64) as char] + Trail(code, n - 1)
  }

  /** `firstByteMark[len]` */
  function Mark(len: nat): int {
    if len == 2 then 0xC0 else if len == 3 then 0xE0 else if len == 4 then 0xF0 else 0
  }

  function Utf8Length(uc: int): nat {
    if uc < 0x80 then 1 else if uc < 0x800 then 2 else if uc < 0x10000 then 3 else 4
  }

  lemma EncodeTrail(code: int)
    requires 0 < code < 0x110000
    ensures var len := Utf8Length(code);
      && 0 <= Mark(len) + Shifted(code, len - 1) < 0x100 && |Encode(code)| == len
      && Encode(code) == [(Mark(len) + Shifted(code, len - 1)) as char] + Trail(code, len - 1)
  {
    var n := Utf8Length(code) - 1;
    assert Shifted(code, 1) == code / 64;
    assert Shifted(code, 2) == code / 4096;
    assert Shifted(code, 3) == code / 262144;
    assert Trail(code, 1) == [(0x80 + code % 64) as char];
    assert Trail(code, 2) == [(0x80 + code / 64 % 64) as char, (0x80 + code % 64) as char];
    if n == 3 {
      assert Trail(code, 3) == [(0x80 + code / 4096 % 64) as char] + Trail(code, 2);
    }
  }

  /** `*--ptr2 = (uc | 0x80) & 0xBF; uc >>= 6;` puts the next byte in front. */
  method StoreTrail(out: array<char>, k0: nat, uc0: int, ghost at: nat, ghost code: int, ghost n: nat)
      returns (k: nat, uc: int)
    requires at < k0 && k0 + n <= out.Length && uc0 == Shifted(code, n)
    requires out[k0..k0 + n] == Trail(code, n)
    modifies out
    ensures k == k0 - 1 && uc == Shifted(code, n + 1) && out[..at] == old(out[..at])
    ensures out[k..k0 + n] == Trail(code, n + 1)
  {
    k := k0 - 1;
    out[k] := (0x80 + uc0 % 64) as char;
    uc := uc0 / 64;
    assert out[k..k0 + n] == [out[k]] + out[k0..k0 + n];
  }

  /** The cases of the fall-through switch behind the first byte. */
  method StoreTrails(out: array<char>, at: nat, code: int, len: nat) returns (uc: int)
    requires 0 < code && 1 <= len <= 4 && at + len <= out.Length
    modifies out
    ensures out[..at] == old(out[..at]) && out[at + 1..at + len] == Trail(code, len - 1) && uc == Shifted(code, len - 1)
  {
    var k := at + len;
    uc := code;
    if len == 4 {
      k, uc := StoreTrail(out, k, uc, at, code, len + at - k);
    }
    if len >= 3 {
      k, uc := StoreTrail(out, k, uc, at, code, len + at - k);
    }
    if len >= 2 {
      k, uc := StoreTrail(out, k, uc, at, code, len + at - k);
    }
  }

  /** The fall-through switch stores a code point from its last byte to its first. */
  method StoreUtf8(out: array<char>, at: nat, code: int) returns (k: nat)
    requires 0 < code < 0x110000 && at + |Encode(code)| <= out.Length
    modifies out
    ensures k == at + |Encode(code)| && out[..k] == old(out[..at]) + Encode(code)
  {
    EncodeTrail(code);
    var len := Utf8Length(code);
    var uc := StoreTrails(out, at, code, len);
    ghost var before, tail := out[..at], out[at + 1..at + len];
    out[at] := (Mark(len) + uc) as char;
    k := at + len;
    assert out[..k] == before + ([out[at]] + tail);
  }

  // ----- the texts within the domain: every literal that is read is well escaped -----

  predicate ScalarOk(s: string) {
    Head(s) == '\"' ==> WellEscaped(s[1..])
  }

  predicate ValueOk(s: string)
    decreases |s|, 2
  {
    if Head(s) == '[' then ArrayOk(s) else if Head(s) == '{' then ObjectOk(s) else ScalarOk(s)
  }

  predicate ArrayOk(s: string)
    requires Head(s) == '['
    decreases |s|, 1
  {
    var t := JsonParse.Skip(s[1..]);
    Head(t) == ']' || FirstOk(JsonParse.Skip(t))
  }

  /** A value and the items behind it. */
  predicate FirstOk(s: string)
    decreases |s|, 3
  {
    ValueOk(s) && (var r := JsonParse.ParseValue(s); r.Parsed? ==> ItemsOk(JsonParse.Skip(r.rest)))
  }

  predicate ItemsOk(s: string)
    decreases |s|, 0
  {
    Head(s) == ',' ==> FirstOk(JsonParse.Skip(s[1..]))
  }

  predicate PairOk(s: string)
    decreases |s|, 3
  {
    && ScalarOk(JsonParse.Skip(s))
    && (var key := JsonParse.ParseString(JsonParse.Skip(s));
        key.Parsed? ==> var t := JsonParse.Skip(key.rest); Head(t) == ':' ==> ValueOk(JsonParse.Skip(t[1..])))
  }

  predicate ObjectOk(s: string)
    requires Head(s) == '{'
    decreases |s|, 1
  {
    var t := JsonParse.Skip(s[1..]);
    Head(t) == '}' || FirstPairOk(t)
  }

  /** A pair and the members behind it. */
  predicate FirstPairOk(s: string)
    decreases |s|, 4
  {
    PairOk(s) && (var r := JsonParse.ParsePair(s); r.Parsed? ==> MembersOk(r.rest))
  }

  predicate MembersOk(s: string)
    decreases |s|, 0
  {
    Head(s) == ',' ==> FirstPairOk(s[1..])
  }

  /** The `u` case of `parse_string`; `ptr` stands on the `u`, and behind the escape at the end. */
  method UnicodeInto(out: array<char>, at: nat, text: string, start: nat) returns (ptr: nat, k: nat)
    requires start < |text| && FourHex(text[start + 1..])
    requires start + 7 <= |text| && text[start + 5..start + 7] == "\\u" ==> FourHex(text[start + 7..])
    requires at + |UnicodeEscape(text[start + 1..]).value| <= out.Length
    modifies out
    ensures start < ptr <= |text| && at <= k <= out.Length
    ensures UnicodeEscape(text[start + 1..]).rest == text[ptr..]
    ensures out[..k] == old(out[..at]) + UnicodeEscape(text[start + 1..]).value
  {
    ghost var s := text[start + 1..];
    Prefix(text, start + 5, "\\u");
    Steps(text, start + 1, 4);
    var uc := Hex4(text[start + 1..]);
    ptr, k := start + 5, at;
    if (0xDC00 <= uc <= 0xDFFF) || uc == 0 {
      return;
    }
    if 0xD800 <= uc <= 0xDBFF {
      if At(text, ptr) != '\\' || At(text, ptr + 1) != 'u' {
        return;
      }
      assert text[start + 5..start + 7] == "\\u";
      Steps(text, start + 1, 6);
      Steps(text, start + 1, 10);
      var uc2 := Hex4(text[ptr + 2..]);
      ptr := ptr + 6;
      if uc2 < 0xDC00 || uc2 > 0xDFFF {
        return;
      }
      uc := 0x10000 + (uc % 0x400) * 0x400 + uc2 % 0x400;
    }
    k := StoreUtf8(out, at, uc);
  }

  /** The escape whose character behind the backslash is at `start`. */
  method EscapeInto(out: array<char>, at: nat, text: string, start: nat) returns (p: nat, k: nat)
    requires start < |text| && at < out.Length && Unescape(text[start..]).Parsed?
    requires text[start] == 'u' ==> FourHex(text[start + 1..])
    requires text[start] == 'u' && start + 7 <= |text| && text[start + 5..start + 7] == "\\u"
      ==> FourHex(text[start + 7..])
    requires at + |Unescape(text[start..]).value| <= out.Length
    modifies out
    ensures start < p <= |text| && at <= k <= out.Length
    ensures Unescape(text[start..]).rest == text[p..]
    ensures out[..k] == old(out[..at]) + Unescape(text[start..]).value
  {
    Step(text, start);
    var c := text[start];
    if c == 'u' {
      p, k := UnicodeInto(out, at, text, start);
    } else {
      out[at] :=
        if c == 'b' then 8 as char else if c == 'f' then 12 as char else if c == 'n' then '\n'
        else if c == 'r' then '\r' else if c == 't' then '\t' else c;
      p, k := start + 1, at + 1;
    }
  }

  lemma EscapeWell(text: string, p: nat)
    requires p < |text| && WellEscaped(text[p..]) && text[p] == '\\'
    ensures p + 1 < |text| && Unescape(text[p + 1..]).Parsed? && WellEscaped(Unescape(text[p + 1..]).rest)
    ensures text[p + 1] == 'u' ==> FourHex(text[p + 2..])
    ensures text[p + 1] == 'u' && p + 8 <= |text| && text[p + 6..p + 8] == "\\u" ==> FourHex(text[p + 8..])
    ensures CanDecode(text[p..])
    ensures StringBody(text[p..]).value
      == Unescape(text[p + 1..]).value + StringBody(Unescape(text[p + 1..]).rest).value
    ensures StringBody(text[p..]).rest == StringBody(Unescape(text[p + 1..]).rest).rest
  {
    var s := text[p..];
    Steps(text, p, 1);
    CountedEnough(s);
    assert s[1..][1..] == s[2..];
    if s[1] == 'u' {
      CountedUnicode(s);
      Steps(text, p, 2);
      Steps(text, p, 6);
      Prefix(text, p + 6, "\\u");
      if "\\u" <= s[6..] {
        Steps(text, p + 6, 2);
      }
    }
  }

  predicate CanDecode(s: string) {
    StringBody(s).Parsed?
  }

  /** `k` bytes are written, and they and what the rest decodes to make up `want`. */
  ghost predicate Decoding(out: seq<char>, k: nat, rest: string, want: Parsed<string>) {
    && want.Parsed? && WellEscaped(rest) && CanDecode(rest)
    && k + |StringBody(rest).value| < |out|
    && want.value == out[..k] + StringBody(rest).value
    && want.rest == StringBody(rest).rest
  }

  lemma DecodeMore(done: string, more: string, body: string, tail: string)
    requires body == more + tail
    ensures done + body == (done + more) + tail
  {
  }

  method DecodeTurn(out: array<char>, text: string, p0: nat, k0: nat, ghost want: Parsed<string>)
    returns (p: nat, k: nat)
    requires p0 < |text| && text[p0] != '\"' && Decoding(out[..], k0, text[p0..], want)
    modifies out
    ensures p0 < p <= |text| && Decoding(out[..], k, text[p..], want)
  {
    Step(text, p0);
    ghost var s := text[p0..];
    if text[p0] != '\\' {
      DecodeMore(out[..k0], [text[p0]], StringBody(s).value, StringBody(text[p0 + 1..]).value);
      out[k0] := text[p0];
      p, k := p0 + 1, k0 + 1;
      assert out[..k] == old(out[..k0]) + [text[p0]];
    } else {
      EscapeWell(text, p0);
      ghost var e := Unescape(text[p0 + 1..]);
      CountedEnough(e.rest);
      DecodeMore(out[..k0], e.value, StringBody(s).value, StringBody(e.rest).value);
      p, k := EscapeInto(out, k0, text, p0 + 1);
      assert |out[..k]| == k0 + |e.value|;
    }
  }

  /** The second pass of `parse_string`, up to the closing quote or the end. */
  method Decode(out: array<char>, text: string, start: nat) returns (p: nat, k: nat)
    requires NulFree(text) && start <= |text| && WellEscaped(text[start..])
    requires Counted(text[start..]) < out.Length
    modifies out
    ensures StringBody(text[start..]).Parsed? && start <= p <= |text| && k < out.Length
    ensures p < |text| ==> text[p] == '\"'
    ensures out[..k] == StringBody(text[start..]).value
    ensures StringBody(text[start..]).rest == if p < |text| then text[p + 1..] else ""
  {
    p, k := start, 0;
    ghost var want := StringBody(text[p..]);
    CountedEnough(text[p..]);
    assert "" + want.value == want.value;
    while At(text, p) != '\"' && At(text, p) != '\0'
      invariant start <= p <= |text| && Decoding(out[..], k, text[p..], want)
      decreases |text| - p
    {
      p, k := DecodeTurn(out, text, p, k, want);
    }
    if p < |text| {
      Step(text, p);
    }
    assert out[..k] + "" == out[..k];
  }

  /** `parse_string`: a first pass sizes the buffer, a second one fills it. */
  method ParseString(item: CJson, text: string, start: nat) returns (end: int)
    requires NulFree(text) && start <= |text| && ScalarOk(text[start..])
    modifies item`kind, item`valuestring
    ensures end < 0 <==> JsonParse.ParseString(text[start..]).Failed?
    ensures end >= 0 ==> start < end <= |text| && item.kind == KString
    ensures end >= 0 ==> JsonParse.ParseString(text[start..]).value == item.valuestring
    ensures end >= 0 ==> JsonParse.ParseString(text[start..]).rest == text[end..]
  {
    if At(text, start) != '\"' {
      return -1;
    }
    Step(text, start);
    var len := Measure(text, start + 1);
    var out := new char[len + 1];
    var p, k := Decode(out, text, start + 1);
    if At(text, p) == '\"' {
      p := p + 1;
    }
    item.valuestring := out[..k];
    item.kind := KString;
    end := p;
    assert text[|text|..] == "";
  }

  /** `while (*ptr != '\"' && *ptr && ++len) if (*ptr++ == '\\') ptr++;` */
  method Measure(text: string, start: nat) returns (len: nat)
    requires NulFree(text) && start <= |text| && WellEscaped(text[start..])
    ensures len == Counted(text[start..])
  {
    var p := start;
    len := 0;
    WellPaired(text[start..]);
    while At(text, p) != '\"' && At(text, p) != '\0'
      invariant start <= p <= |text| && len + Counted(text[p..]) == Counted(text[start..])
      invariant Paired(text[p..])
      decreases |text| - p
    {
      Step(text, p);
      len := len + 1;
      if text[p] == '\\' {
        Steps(text, p, 2);
        p := p + 1;
      }
      p := p + 1;
    }
  }

  /** Every backslash of the literal is followed by a character. */
  predicate Paired(s: string) {
    s == "" || s[0] == '\"' || (if s[0] != '\\' then Paired(s[1..]) else |s| > 1 && Paired(s[2..]))
  }

  lemma {:induction false} WellPaired(s: string)
    requires WellEscaped(s)
    ensures Paired(s)
    decreases |s|
  {
    if s == "" || s[0] == '\"' {
    } else if s[0] != '\\' {
      WellPaired(s[1..]);
    } else if s[1] != 'u' {
      WellPaired(s[2..]);
    } else {
      WellPaired(s[6..]);
      assert s[5..][1..] == s[6..] && Paired(s[5..]);
      assert s[4..][1..] == s[5..] && Paired(s[4..]);
      assert s[3..][1..] == s[4..] && Paired(s[3..]);
      assert s[2..][1..] == s[3..] && Paired(s[2..]);
    }
  }

  // ----- child lists -----

  lemma {:induction false} ViewsSnoc(views: seq<(string, Json)>, v: (string, Json), items: Items, members: Members)
    ensures ItemsOf(views + [v], items) == ItemsOf(views, Item(v.1, items))
    ensures MembersOf(views + [v], members) == MembersOf(views, Member(v.0, v.1, members))
  {
    if views != [] {
      assert (views + [v])[1..] == views[1..] + [v];
      ViewsSnoc(views[1..], v, items, members);
    }
  }

  /** The values parsed so far in front of what the rest of the list gives. */
  function BeforeItems(views: seq<(string, Json)>, more: Parsed<Items>): Parsed<Items> {
    if more.Failed? then Failed else Parsed(ItemsOf(views, more.value), more.rest)
  }

  function BeforeMembers(views: seq<(string, Json)>, more: Parsed<Members>): Parsed<Members> {
    if more.Failed? then Failed else Parsed(MembersOf(views, more.value), more.rest)
  }

  /** `child->next = new_item; new_item->prev = child` with a new blank node. */
  method Append(child: CJson, ghost kids: seq<CJson>) returns (node: CJson)
    requires kids != [] && Chain(kids[0], kids) && child == kids[|kids| - 1]
    requires forall i, j :: 0 <= i < j < |kids| ==> kids[i] != kids[j]
    modifies child`next
    ensures fresh(node) && node.Blank()
    ensures Chain(kids[0], kids + [node])
  {
    node := new CJson();
    assert forall k <- kids :: k != node;
    child.next := node;
    node.prev := child;
    assert forall i :: 0 <= i < |kids| ==> (kids + [node])[i] == kids[i] && kids[i] in kids;
  }

  /** A new tree stands apart from the ones before it. */
  lemma TreesGrow(kids: seq<CJson>, D: set<CJson>, views: seq<(string, Json)>, node: CJson)
    requires Trees(kids, D, views)
    requires node.Valid() && node !in kids && node !in D && node.Repr !! D && node.Repr !! set k <- kids
    ensures Trees(kids + [node], D + node.Repr, views + [(node.key, node.View())])
  {
    assert forall i :: 0 <= i < |kids| ==> (kids + [node])[i] == kids[i] && kids[i] in kids;
  }

  // ----- values -----

  /** What a parsing method leaves behind: the tree and the position, or failure. */
  ghost predicate Read(item: CJson, text: string, end: int, r: Parsed<Json>)
    reads item, item.Repr
  {
    && (end < 0 <==> r.Failed?)
    && (end >= 0 ==>
          && end <= |text| && r.rest == text[end..]
          && item.Valid() && r.value == item.View())
  }

  method ParseLiteral(item: CJson, text: string, start: nat) returns (end: int)
    requires start <= |text|
    modifies item`kind
    ensures var s := text[start..]; end < 0 <==> !("null" <= s) && !("false" <= s) && !("true" <= s)
    ensures end >= 0 ==> end <= |text|
    ensures end >= 0 ==> var s := text[start..];
      item.kind == (if "null" <= s then KNull else if "false" <= s then KFalse else KTrue)
      && text[end..] == (if "false" <= s then s[5..] else s[4..])
  {
    var s := text[start..];
    Starts(s);
    if "null" <= s {
      Steps(text, start, 4);
      item.kind := KNull;
      end := start + 4;
      assert s[4..] == text[end..];
    } else if "false" <= s {
      Steps(text, start, 5);
      item.kind := KFalse;
      end := start + 5;
      assert s[5..] == text[end..];
    } else if "true" <= s {
      Steps(text, start, 4);
      item.kind := KTrue;
      end := start + 4;
      assert s[4..] == text[end..];
    } else {
      end := -1;
    }
  }

  lemma Starts(s: string)
    ensures "null" <= s ==> s[0] == 'n'
    ensures "false" <= s ==> s[0] == 'f'
    ensures "true" <= s ==> s[0] == 't'
  {
    var n, f, y := "null", "false", "true";
    assert n[0] == 'n' && f[0] == 'f' && y[0] == 't';
  }

  /** `item` holds the scalar `v`. */
  ghost predicate Holds(item: CJson, v: Json)
    reads item`kind, item`valuestring, item`valuedouble
  {
    match v
    case Null => item.kind == KNull
    case False => item.kind == KFalse
    case True => item.kind == KTrue
    case Number(d) => item.kind == KNumber && item.valuedouble == d
    case String(s) => item.kind == KString && item.valuestring == s
    case _ => false
  }

  /** The three literals, strings and numbers. */
  method ParseScalar(item: CJson, text: string, start: nat) returns (end: int)
    requires NulFree(text) && start <= |text| && ScalarOk(text[start..])
    modifies item`kind, item`valuestring, item`valuedouble
    ensures end < 0 <==> JsonParse.ParseScalar(text[start..]).Failed?
    ensures end >= 0 ==> end <= |text| && text[end..] == JsonParse.ParseScalar(text[start..]).rest
    ensures end >= 0 ==> Holds(item, JsonParse.ParseScalar(text[start..]).value)
  {
    end := ParseLiteral(item, text, start);
    if end < 0 {
      if At(text, start) == '\"' {
        end := ParseString(item, text, start);
      } else if At(text, start) == '-' || IsDigit(At(text, start)) {
        end := ParseNumber(item, text, start);
      }
    }
  }

  lemma ScalarRead(item: CJson, v: Json)
    requires item.Blank() && Holds(item, v)
    ensures item.Valid() && item.View() == v
  {
  }

  /** `parse_value` */
  method ParseValue(item: CJson, text: string, start: nat) returns (end: int)
    requires NulFree(text) && start <= |text| && ValueOk(text[start..]) && item.Blank()
    modifies item`kind, item`valuestring, item`valuedouble, item`child, item`kids, item`Repr
    ensures Read(item, text, end, JsonParse.ParseValue(text[start..])) && fresh(item.Repr)
    decreases |text| - start, 2
  {
    hide NulFree, Holds, CJson.Valid, CJson.View, JsonParse.ParseArray, JsonParse.ParseObject, JsonParse.ParseScalar;
    if At(text, start) == '[' {
      end := ParseArray(item, text, start);
    } else if At(text, start) == '{' {
      end := ParseObject(item, text, start);
    } else {
      end := ParseScalar(item, text, start);
      if end >= 0 {
        ScalarRead(item, JsonParse.ParseScalar(text[start..]).value);
      }
    }
  }

  /** `skip(parse_value(item, skip(value)))` */
  method ParseSpaced(item: CJson, text: string, start: nat) returns (p: int)
    requires NulFree(text) && start <= |text| && ValueOk(JsonParse.Skip(text[start..])) && item.Blank()
    modifies item`kind, item`valuestring, item`valuedouble, item`child, item`kids, item`Repr
    ensures fresh(item.Repr)
    ensures var r := JsonParse.ParseValue(JsonParse.Skip(text[start..]));
      && (p < 0 <==> r.Failed?)
      && (p >= 0 ==>
            && start < p <= |text| && text[p..] == JsonParse.Skip(r.rest)
            && item.Valid() && item.View() == r.value)
    decreases |text| - start, 3
  {
    p := Skip(text, start);
    p := ParseValue(item, text, p);
    if p >= 0 {
      p := Skip(text, p);
    }
  }

  /** The first item of an array, and the whitespace behind it. */
  method FirstItem(item: CJson, text: string, start: nat)
    returns (child: CJson, p: int, ghost D: set<CJson>, ghost views: seq<(string, Json)>)
    requires NulFree(text) && start <= |text| && ValueOk(JsonParse.Skip(text[start..]))
    modifies item`child
    ensures fresh(child) && item.child == child
    ensures var r := JsonParse.ParseValue(JsonParse.Skip(text[start..]));
      && (p < 0 <==> r.Failed?)
      && (p >= 0 ==>
            && start <= p <= |text| && text[p..] == JsonParse.Skip(r.rest)
            && fresh(D) && Chain(child, [child]) && Trees([child], D, views) && views[0].1 == r.value)
    decreases |text| - start, 4
  {
    hide JsonParse.ParseValue, JsonParse.ParseArray, JsonParse.ParseObject, JsonParse.Skip, NulFree;
    child := new CJson();
    item.child := child;
    D, views := {}, [];
    p := ParseSpaced(child, text, start);
    if p >= 0 {
      D, views := child.Repr, [(child.key, child.View())];
    }
  }

  lemma OneItem(views: seq<(string, Json)>, items: Items, members: Members)
    requires |views| == 1
    ensures ItemsOf(views, items) == Item(views[0].1, items)
    ensures MembersOf(views, members) == Member(views[0].0, views[0].1, members)
  {
  }

  /** What `parse_array` gives, from the positions it goes through. */
  lemma ArrayText(text: string, start: nat, p: nat, first: Parsed<Json>, more: Parsed<Items>)
    requires start < p <= |text| && text[start] == '[' && text[p..] == JsonParse.Skip(text[start + 1..])
    requires At(text, p) != ']' && first == JsonParse.ParseValue(JsonParse.Skip(text[p..]))
    requires first.Parsed? ==> more == MoreItems(JsonParse.Skip(first.rest))
    ensures JsonParse.ParseArray(text[start..]) ==
      if first.Failed? || more.Failed? || Head(more.rest) != ']' then Failed
      else Parsed(Array(Item(first.value, more.value)), more.rest[1..])
  {
    Step(text, start);
  }

  /** The domain, from the positions gone through. */
  lemma ArrayClear(text: string, start: nat, open: nat)
    requires start < open <= |text| && text[start] == '[' && ArrayOk(text[start..])
    requires text[open..] == JsonParse.Skip(text[start + 1..]) && At(text, open) != ']'
    ensures FirstOk(JsonParse.Skip(text[open..]))
  {
    Step(text, start);
  }

  lemma ObjectClear(text: string, start: nat, open: nat)
    requires start < open <= |text| && text[start] == '{' && ObjectOk(text[start..])
    requires text[open..] == JsonParse.Skip(text[start + 1..]) && At(text, open) != '}'
    ensures FirstPairOk(text[open..])
  {
    Step(text, start);
  }

  lemma ItemsClear(s: string)
    requires ItemsOk(s) && Head(s) == ','
    ensures FirstOk(JsonParse.Skip(s[1..]))
  {
  }

  lemma MembersClear(s: string)
    requires MembersOk(s) && Head(s) == ','
    ensures FirstPairOk(s[1..])
  {
  }

  /** `parse_array` */
  method ParseArray(item: CJson, text: string, start: nat) returns (end: int)
    requires NulFree(text) && start < |text| && text[start] == '[' && ArrayOk(text[start..]) && item.Blank()
    modifies item`kind, item`valuestring, item`valuedouble, item`child, item`kids, item`Repr
    ensures Read(item, text, end, JsonParse.ParseArray(text[start..])) && fresh(item.Repr)
    decreases |text| - start, 1
  {
    item.kind := KArray;
    Step(text, start);
    var p := Skip(text, start + 1);
    if At(text, p) == ']' {
      Step(text, p);
      return p + 1;
    }
    end := ParseFilled(item, text, start, p);
  }

  /** `parse_array` from the first item on. */
  method ParseFilled(item: CJson, text: string, start: nat, open: nat) returns (end: int)
    requires NulFree(text) && start < open <= |text| && text[start] == '[' && ArrayOk(text[start..])
    requires text[open..] == JsonParse.Skip(text[start + 1..]) && At(text, open) != ']'
    requires item.Blank() && item.kind == KArray
    modifies item`child, item`kids, item`Repr
    ensures Read(item, text, end, JsonParse.ParseArray(text[start..])) && fresh(item.Repr)
    decreases |text| - start, 0
  {
    hide JsonParse.ParseValue, JsonParse.ParseArray, JsonParse.ParseObject, JsonParse.Skip, NulFree, CJson.Valid,
      CJson.View, Apart;
    ArrayClear(text, start, open);
    ghost var first := JsonParse.ParseValue(JsonParse.Skip(text[open..]));
    var child, q, D, views := FirstItem(item, text, open);
    end := -1;
    if q >= 0 {
      ghost var kids;
      ArrayText(text, start, open, first, MoreItems(text[q..]));
      end, kids, D, views := RestOfArray(child, text, q, D, views);
      if end >= 0 {
        Adopt(item, kids, D, views);
      }
    } else {
      ArrayText(text, start, open, first, Failed);
    }
  }

  /** The items behind the first one, and the closing bracket. */
  method RestOfArray(first: CJson, text: string, start: nat, ghost D0: set<CJson>, ghost views0: seq<(string, Json)>)
    returns (end: int, ghost kids: seq<CJson>, ghost D: set<CJson>, ghost views: seq<(string, Json)>)
    requires NulFree(text) && start <= |text| && ItemsOk(text[start..])
    requires Chain(first, [first]) && Trees([first], D0, views0)
    modifies first`next
    ensures var more := MoreItems(text[start..]);
      && (end < 0 <==> more.Failed? || Head(more.rest) != ']')
      && (end >= 0 ==>
            && end <= |text| && text[end..] == more.rest[1..]
            && kids != [] && kids[0] == first && fresh(set k <- kids[1..]) && fresh(D - D0)
            && Chain(first, kids) && Trees(kids, D, views) && ItemsOf(views, NoItem) == Item(views0[0].1, more.value))
    decreases |text| - start, 5
  {
    hide JsonParse.ParseValue, JsonParse.ParseArray, JsonParse.ParseObject, JsonParse.Skip, NulFree, CJson.Valid,
      CJson.View, Apart;
    end, kids, D, views := ParseItems(first, text, start, D0, views0);
    if end >= 0 && At(text, end) == ']' {
      OneItem(views0, MoreItems(text[start..]).value, NoMember);
      Step(text, end);
      end := end + 1;
    } else {
      end := -1;
    }
  }

  /** One turn of the loop of `parse_array`: a comma and the next item. */
  method NextItem(child: CJson, text: string, start: nat, ghost kids0: seq<CJson>, ghost D0: set<CJson>,
                  ghost views0: seq<(string, Json)>)
    returns (node: CJson, p: int, ghost kids: seq<CJson>, ghost D: set<CJson>, ghost views: seq<(string, Json)>)
    requires NulFree(text) && start < |text| && ItemsOk(text[start..]) && text[start] == ','
    requires kids0 != [] && child == kids0[|kids0| - 1] && Chain(kids0[0], kids0) && Trees(kids0, D0, views0)
    modifies child`next
    ensures p < 0 ==> MoreItems(text[start..]).Failed?
    ensures p >= 0 ==>
      && start < p <= |text| && ItemsOk(text[p..])
      && fresh(node) && kids == kids0 + [node] && fresh(D - D0) && Chain(kids0[0], kids) && Trees(kids, D, views)
      && BeforeItems(views0, MoreItems(text[start..])) == BeforeItems(views, MoreItems(text[p..]))
    decreases |text| - start, 3
  {
    hide JsonParse.ParseValue, JsonParse.ParseArray, JsonParse.ParseObject, JsonParse.Skip, NulFree, CJson.Valid,
      CJson.View;
    kids, D, views := kids0, D0, views0;
    node := Append(child, kids0);
    Step(text, start);
    ItemsClear(text[start..]);
    label Linked:
    p := ParseSpaced(node, text, start + 1);
    assert forall k <- kids0 + [node] :: k.next == old@Linked(k.next) && k.prev == old@Linked(k.prev);
    assert Chain(kids0[0], kids0 + [node]);
    if p >= 0 {
      TreesGrow(kids0, D0, views0, node);
      ghost var v := (node.key, node.View());
      kids, D, views := kids0 + [node], D0 + node.Repr, views0 + [v];
      OneMoreItem(text[start..], text[p..], views0, v);
    }
  }

  lemma OneMoreItem(s: string, t: string, views: seq<(string, Json)>, v: (string, Json))
    requires Head(s) == ','
    requires var r := JsonParse.ParseValue(JsonParse.Skip(s[1..]));
      r.Parsed? && r.value == v.1 && t == JsonParse.Skip(r.rest)
    ensures BeforeItems(views, MoreItems(s)) == BeforeItems(views + [v], MoreItems(t))
  {
    if MoreItems(t).Parsed? {
      ViewsSnoc(views, v, MoreItems(t).value, NoMember);
    }
  }

  /** The loop of `parse_array`. */
  method ParseItems(first: CJson, text: string, start: nat, ghost D0: set<CJson>, ghost views0: seq<(string, Json)>)
    returns (p: int, ghost kids: seq<CJson>, ghost D: set<CJson>, ghost views: seq<(string, Json)>)
    requires NulFree(text) && start <= |text| && ItemsOk(text[start..])
    requires Chain(first, [first]) && Trees([first], D0, views0)
    modifies first`next
    ensures p < 0 <==> MoreItems(text[start..]).Failed?
    ensures p >= 0 ==>
      && start <= p <= |text| && ItemsOk(text[p..])
      && kids != [] && kids[0] == first && fresh(set k <- kids[1..]) && fresh(D - D0)
      && Chain(first, kids) && Trees(kids, D, views)
      && BeforeItems(views0, MoreItems(text[start..])) == Parsed(ItemsOf(views, NoItem), text[p..])
    decreases |text| - start, 4
  {
    hide JsonParse.ParseValue, JsonParse.ParseArray, JsonParse.ParseObject, JsonParse.Skip, NulFree, CJson.Valid,
      CJson.View, Apart;
    var last := first;
    p, kids, D, views := start, [first], D0, views0;
    while At(text, p) == ','
      invariant start <= p <= |text| && ItemsOk(text[p..])
      invariant kids != [] && kids[0] == first && last == kids[|kids| - 1] && (last == first || fresh(last))
      invariant fresh(set k <- kids[1..]) && fresh(D - D0) && Chain(first, kids) && Trees(kids, D, views)
      invariant BeforeItems(views0, MoreItems(text[start..])) == BeforeItems(views, MoreItems(text[p..]))
      decreases |text| - p
    {
      last, p, kids, D, views := NextItem(last, text, p, kids, D, views);
      if p < 0 {
        return;
      }
    }
  }

  /** A key, a colon and a value into a new node, and the whitespace behind them. */
  method ParsePair(item: CJson, text: string, start: nat) returns (p: int)
    requires NulFree(text) && start <= |text| && PairOk(text[start..]) && item.Blank()
    modifies item`kind, item`valuestring, item`valuedouble, item`key, item`child, item`kids, item`Repr
    ensures fresh(item.Repr)
    ensures var r := JsonParse.ParsePair(text[start..]);
      && (p < 0 <==> r.Failed?)
      && (p >= 0 ==>
            && start < p <= |text| && text[p..] == r.rest
            && item.Valid() && (item.key, item.View()) == r.value)
    decreases |text| - start, 3
  {
    p := ParseKey(item, text, start);
    if p < 0 || At(text, p) != ':' {
      return -1;
    }
    Step(text, p);
    p := ParseSpaced(item, text, p + 1);
  }

  /** The key of a pair, moved to the node's name, and the whitespace behind it. */
  method ParseKey(item: CJson, text: string, start: nat) returns (p: int)
    requires NulFree(text) && start <= |text| && ScalarOk(JsonParse.Skip(text[start..]))
    modifies item`kind, item`valuestring, item`key
    ensures var r := JsonParse.ParseString(JsonParse.Skip(text[start..]));
      && (p < 0 <==> r.Failed?)
      && (p >= 0 ==>
            start < p <= |text| && text[p..] == JsonParse.Skip(r.rest) && item.key == r.value)
  {
    p := Skip(text, start);
    p := ParseString(item, text, p);
    if p >= 0 {
      p := Skip(text, p);
      item.key := item.valuestring;
      item.valuestring := "";
    }
  }

  /** The first member of an object. */
  method FirstPair(item: CJson, text: string, start: nat)
    returns (child: CJson, p: int, ghost D: set<CJson>, ghost views: seq<(string, Json)>)
    requires NulFree(text) && start <= |text| && PairOk(text[start..])
    modifies item`child
    ensures fresh(child) && item.child == child
    ensures var r := JsonParse.ParsePair(text[start..]);
      && (p < 0 <==> r.Failed?)
      && (p >= 0 ==>
            && start <= p <= |text| && text[p..] == r.rest
            && fresh(D) && Chain(child, [child]) && Trees([child], D, views) && views[0] == r.value)
    decreases |text| - start, 4
  {
    hide JsonParse.ParseValue, JsonParse.ParseArray, JsonParse.ParseObject, JsonParse.Skip, NulFree;
    child := new CJson();
    item.child := child;
    D, views := {}, [];
    p := ParsePair(child, text, start);
    if p >= 0 {
      D, views := child.Repr, [(child.key, child.View())];
    }
  }

  /** One turn of the loop of `parse_object`: a comma and the next member. */
  method NextPair(child: CJson, text: string, start: nat, ghost kids0: seq<CJson>, ghost D0: set<CJson>,
                  ghost views0: seq<(string, Json)>)
    returns (node: CJson, p: int, ghost kids: seq<CJson>, ghost D: set<CJson>, ghost views: seq<(string, Json)>)
    requires NulFree(text) && start < |text| && MembersOk(text[start..]) && text[start] == ','
    requires kids0 != [] && child == kids0[|kids0| - 1] && Chain(kids0[0], kids0) && Trees(kids0, D0, views0)
    modifies child`next
    ensures p < 0 ==> MoreMembers(text[start..]).Failed?
    ensures p >= 0 ==>
      && start < p <= |text| && MembersOk(text[p..])
      && fresh(node) && kids == kids0 + [node] && fresh(D - D0) && Chain(kids0[0], kids) && Trees(kids, D, views)
      && BeforeMembers(views0, MoreMembers(text[start..])) == BeforeMembers(views, MoreMembers(text[p..]))
    decreases |text| - start, 3
  {
    hide JsonParse.ParseValue, JsonParse.ParseArray, JsonParse.ParseObject, JsonParse.Skip, NulFree, CJson.Valid,
      CJson.View;
    kids, D, views := kids0, D0, views0;
    node := Append(child, kids0);
    Step(text, start);
    MembersClear(text[start..]);
    label Linked:
    p := ParsePair(node, text, start + 1);
    assert forall k <- kids0 + [node] :: k.next == old@Linked(k.next) && k.prev == old@Linked(k.prev);
    assert Chain(kids0[0], kids0 + [node]);
    if p >= 0 {
      TreesGrow(kids0, D0, views0, node);
      ghost var v := (node.key, node.View());
      kids, D, views := kids0 + [node], D0 + node.Repr, views0 + [v];
      OneMoreMember(text[start..], text[p..], views0, v);
    }
  }

  lemma OneMoreMember(s: string, t: string, views: seq<(string, Json)>, v: (string, Json))
    requires Head(s) == ',' && JsonParse.ParsePair(s[1..]) == Parsed(v, t)
    ensures BeforeMembers(views, MoreMembers(s)) == BeforeMembers(views + [v], MoreMembers(t))
  {
    if MoreMembers(t).Parsed? {
      ViewsSnoc(views, v, NoItem, MoreMembers(t).value);
    }
  }

  /** The loop of `parse_object`. */
  method ParseMembers(first: CJson, text: string, start: nat, ghost D0: set<CJson>, ghost views0: seq<(string, Json)>)
    returns (p: int, ghost kids: seq<CJson>, ghost D: set<CJson>, ghost views: seq<(string, Json)>)
    requires NulFree(text) && start <= |text| && MembersOk(text[start..])
    requires Chain(first, [first]) && Trees([first], D0, views0)
    modifies first`next
    ensures p < 0 <==> MoreMembers(text[start..]).Failed?
    ensures p >= 0 ==>
      && start <= p <= |text| && MembersOk(text[p..])
      && kids != [] && kids[0] == first && fresh(set k <- kids[1..]) && fresh(D - D0)
      && Chain(first, kids) && Trees(kids, D, views)
      && BeforeMembers(views0, MoreMembers(text[start..])) == Parsed(MembersOf(views, NoMember), text[p..])
    decreases |text| - start, 4
  {
    hide JsonParse.ParseValue, JsonParse.ParseArray, JsonParse.ParseObject, JsonParse.Skip, NulFree, CJson.Valid,
      CJson.View, Apart;
    var last := first;
    p, kids, D, views := start, [first], D0, views0;
    while At(text, p) == ','
      invariant start <= p <= |text| && MembersOk(text[p..])
      invariant kids != [] && kids[0] == first && last == kids[|kids| - 1] && (last == first || fresh(last))
      invariant fresh(set k <- kids[1..]) && fresh(D - D0) && Chain(first, kids) && Trees(kids, D, views)
      invariant BeforeMembers(views0, MoreMembers(text[start..])) == BeforeMembers(views, MoreMembers(text[p..]))
      decreases |text| - p
    {
      last, p, kids, D, views := NextPair(last, text, p, kids, D, views);
      if p < 0 {
        return;
      }
    }
  }

  /** What `parse_object` gives, from the positions it goes through. */
  lemma ObjectText(text: string, start: nat, p: nat, first: Parsed<(string, Json)>, more: Parsed<Members>)
    requires start < p <= |text| && text[start] == '{' && text[p..] == JsonParse.Skip(text[start + 1..])
    requires At(text, p) != '}' && first == JsonParse.ParsePair(text[p..])
    requires first.Parsed? ==> more == MoreMembers(first.rest)
    ensures JsonParse.ParseObject(text[start..]) ==
      if first.Failed? || more.Failed? || Head(more.rest) != '}' then Failed
      else Parsed(Object(Member(first.value.0, first.value.1, more.value)), more.rest[1..])
  {
    Step(text, start);
  }

  /** `parse_object` */
  method ParseObject(item: CJson, text: string, start: nat) returns (end: int)
    requires NulFree(text) && start < |text| && text[start] == '{' && ObjectOk(text[start..]) && item.Blank()
    modifies item`kind, item`valuestring, item`valuedouble, item`child, item`kids, item`Repr
    ensures Read(item, text, end, JsonParse.ParseObject(text[start..])) && fresh(item.Repr)
    decreases |text| - start, 1
  {
    item.kind := KObject;
    Step(text, start);
    var p := Skip(text, start + 1);
    if At(text, p) == '}' {
      Step(text, p);
      return p + 1;
    }
    end := ParseKeyed(item, text, start, p);
  }

  /** `parse_object` from the first member on. */
  method ParseKeyed(item: CJson, text: string, start: nat, open: nat) returns (end: int)
    requires NulFree(text) && start < open <= |text| && text[start] == '{' && ObjectOk(text[start..])
    requires text[open..] == JsonParse.Skip(text[start + 1..]) && At(text, open) != '}'
    requires item.Blank() && item.kind == KObject
    modifies item`child, item`kids, item`Repr
    ensures Read(item, text, end, JsonParse.ParseObject(text[start..])) && fresh(item.Repr)
    decreases |text| - start, 0
  {
    hide JsonParse.ParseValue, JsonParse.ParseArray, JsonParse.ParseObject, JsonParse.Skip, NulFree, CJson.Valid,
      CJson.View, Apart;
    ObjectClear(text, start, open);
    ghost var first := JsonParse.ParsePair(text[open..]);
    var child, q, D, views := FirstPair(item, text, open);
    end := -1;
    if q >= 0 {
      ghost var kids;
      ObjectText(text, start, open, first, MoreMembers(text[q..]));
      end, kids, D, views := RestOfObject(child, text, q, D, views);
      if end >= 0 {
        Adopt(item, kids, D, views);
      }
    } else {
      ObjectText(text, start, open, first, Failed);
    }
  }

  /** The members behind the first one, and the closing brace. */
  method RestOfObject(first: CJson, text: string, start: nat, ghost D0: set<CJson>, ghost views0: seq<(string, Json)>)
    returns (end: int, ghost kids: seq<CJson>, ghost D: set<CJson>, ghost views: seq<(string, Json)>)
    requires NulFree(text) && start <= |text| && MembersOk(text[start..])
    requires Chain(first, [first]) && Trees([first], D0, views0)
    modifies first`next
    ensures var more := MoreMembers(text[start..]);
      && (end < 0 <==> more.Failed? || Head(more.rest) != '}')
      && (end >= 0 ==>
            && end <= |text| && text[end..] == more.rest[1..]
            && kids != [] && kids[0] == first && fresh(set k <- kids[1..]) && fresh(D - D0)
            && Chain(first, kids) && Trees(kids, D, views)
              && MembersOf(views, NoMember) == Member(views0[0].0, views0[0].1, more.value))
    decreases |text| - start, 5
  {
    hide JsonParse.ParseValue, JsonParse.ParseArray, JsonParse.ParseObject, JsonParse.Skip, NulFree, CJson.Valid,
      CJson.View, Apart;
    end, kids, D, views := ParseMembers(first, text, start, D0, views0);
    if end >= 0 && At(text, end) == '}' {
      OneItem(views0, NoItem, MoreMembers(text[start..]).value);
      Step(text, end);
      end := end + 1;
    } else {
      end := -1;
    }
  }

  /** `cJSON_ParseWithOpts`: the tree, and the position behind it. */
  method ParseWithOpts(text: string, requireNullTerminated: bool) returns (root: CJson?, end: nat)
    requires NulFree(text) && ValueOk(JsonParse.Skip(text))
    ensures root == null <==> ParseText(text, requireNullTerminated).Failed?
    ensures root != null ==> fresh(root) && root.Valid() && end <= |text|
    ensures root != null ==> ParseText(text, requireNullTerminated) == Parsed(root.View(), text[end..])
  {
    assert text[0..] == text;
    var c := new CJson();
    var p := Skip(text, 0);
    var q := ParseValue(c, text, p);
    if q < 0 {
      return null, 0;
    }
    end := q;
    if requireNullTerminated {
      end := Skip(text, end);
      if At(text, end) != '\0' {
        return null, 0;
      }
    }
    root := c;
  }
}
