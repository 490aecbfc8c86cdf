/**
 The recursive-descent parser of cJSON as functions on text.  A `const char *`
 is the text it points to; a null result is `Failed`.
 */
module JsonParse {
  import opened CText
  import opened JsonText
  import opened Utf8

  datatype Parsed<+T> = Parsed(value: T, rest: string) | Failed

  /** `skip`: jump over whitespace and control characters. */
  function Skip(s: string): (r: string)
    ensures |r| <= |s|
  {
    if s != "" && s[0] <= ' ' then Skip(s[1..]) else s
  }

  // ----- numbers -----

  function TakeDigits(s: string, n: real): (r: (real, string))
    ensures |r.1| <= |s|
  {
    if s != "" && IsDigit(s[0]) then TakeDigits(s[1..], n * 10.0 + DigitOf(s[0]) as real) else (n, s)
  }

  function Pow10(k: int): real
    decreases if k < 0 then -k else k
  {
    if k == 0 then 1.0 else if k > 0 then 10.0 * Pow10(k - 1) else Pow10(k + 1) / 10.0
  }

  /** `sign*n*pow(10.0, ...)`, the sign already in `m`. */
  function Scaled(m: real, k: int): real {
    m * Pow10(k)
  }

  function SkipOne(s: string, c: char): (r: string)
    ensures |r| <= |s|
  {
    if Head(s) == c && s != "" then s[1..] else s
  }

  /** The fraction: the digits after the point and how many there were. */
  function Fraction(s: string, n: real): (r: (real, int, string))
    ensures |r.2| <= |s|
  {
    if Head(s) == '.' && IsDigit(Second(s)) then
      var (m, rest) := TakeDigits(s[1..], n);
      (m, |rest| - |s| + 1, rest)
    else (n, 0, s)
  }

  function Exponent(s: string): (r: (int, string))
    ensures |r.1| <= |s|
  {
    if Head(s) == 'e' || Head(s) == 'E' then
      var negative := Head(s[1..]) == '-';
      var t := if Head(s[1..]) == '+' then s[2..] else SkipOne(s[1..], '-');
      var (k, rest) := TakeDigits(t, 0.0);
      (if negative then -k.Floor else k.Floor, rest)
    else (0, s)
  }

  /** `parse_number`, over the reals. */
  function ParseNumber(s: string): (r: (real, string))
    requires Head(s) == '-' || IsDigit(Head(s))
    ensures |r.1| < |s|
  {
    var t := SkipOne(SkipOne(s, '-'), '0');
    var (n, u) := if '1' <= Head(t) <= '9' then TakeDigits(t[1..], DigitOf(t[0]) as real) else (0.0, t);
    var (m, scale, v) := Fraction(u, n);
    var (subscale, rest) := Exponent(v);
    (Scaled(if Head(s) == '-' then -m else m, scale + subscale), rest)
  }

  // ----- strings -----

  predicate IsHex(c: char) {
    '0' <= c <= '9' || 'A' <= c <= 'F' || 'a' <= c <= 'f'
  }

  function HexValue(c: char): (n: int)
    requires IsHex(c)
    ensures 0 <= n < 16
  {
    if c <= '9' then c as int - '0' as int
    else if c <= 'F' then 10 + c as int - 'A' as int
    else 10 + c as int - 'a' as int
  }

  /** `parse_hex4`: zero when one of the four characters is not a hexadecimal digit. */
  function Hex4(s: string): (n: int)
    requires |s| >= 4
    ensures 0 <= n < 0x10000
  {
    if IsHex(s[0]) && IsHex(s[1]) && IsHex(s[2]) && IsHex(s[3]) then
      4096 * HexValue(s[0]) + 256 * HexValue(s[1]) + 16 * HexValue(s[2]) + HexValue(s[3])
    else 0
  }

  /** What a `\u` escape, whose text after the `u` is `s`, adds to the string. */
  function UnicodeEscape(s: string): (r: Parsed<string>)
    ensures r.Parsed? ==> |r.rest| < |s|
  {
    if |s| < 4 then Failed
    else
      var uc := Hex4(s);
      if 0xDC00 <= uc <= 0xDFFF || uc == 0 then Parsed("", s[4..])
      else if 0xD800 <= uc <= 0xDBFF then
        if !("\\u" <= s[4..]) then Parsed("", s[4..])
        else if |s| < 10 then Failed
        else
          var uc2 := Hex4(s[6..]);
          if uc2 < 0xDC00 || uc2 > 0xDFFF then Parsed("", s[10..])
          else Parsed(Encode(0x10000 + (uc % 0x400) * 0x400 + uc2 % 0x400), s[10..])
      else Parsed(Encode(uc), s[4..])
  }

  /** What a backslash escape, whose text after the backslash is `s`, adds. */
  function Unescape(s: string): (r: Parsed<string>)
    ensures r.Parsed? ==> |r.rest| < |s|
  {
    if s == "" then Failed
    else if s[0] == 'b' then Parsed([8 as char], s[1..])
    else if s[0] == 'f' then Parsed([12 as char], s[1..])
    else if s[0] == 'n' then Parsed("\n", s[1..])
    else if s[0] == 'r' then Parsed("\r", s[1..])
    else if s[0] == 't' then Parsed("\t", s[1..])
    else if s[0] == 'u' then UnicodeEscape(s[1..])
    else Parsed([s[0]], s[1..])
  }

  /** The text after the opening quote of a string. */
  function StringBody(s: string): (r: Parsed<string>)
    ensures r.Parsed? ==> |r.rest| <= |s|
    decreases |s|
  {
    if s == "" then Parsed("", "")
    else if s[0] == '\"' then Parsed("", s[1..])
    else if s[0] != '\\' then
      var r := StringBody(s[1..]);
      if r.Failed? then Failed else Parsed([s[0]] + r.value, r.rest)
    else
      var e := Unescape(s[1..]);
      if e.Failed? then Failed
      else
        var r := StringBody(e.rest);
        if r.Failed? then Failed else Parsed(e.value + r.value, r.rest)
  }

  function ParseString(s: string): (r: Parsed<string>)
    ensures r.Parsed? ==> |r.rest| < |s|
  {
    if Head(s) != '\"' then Failed else StringBody(s[1..])
  }

  // ----- values -----

  /** The three literals, strings and numbers. */
  function ParseScalar(s: string): (r: Parsed<Json>)
    ensures r.Parsed? ==> |r.rest| < |s|
  {
    if "null" <= s then Parsed(Null, s[4..])
    else if "false" <= s then Parsed(False, s[5..])
    else if "true" <= s then Parsed(True, s[4..])
    else if Head(s) == '\"' then
      var r := ParseString(s);
      if r.Failed? then Failed else Parsed(String(r.value), r.rest)
    else if Head(s) == '-' || IsDigit(Head(s)) then
      var (n, rest) := ParseNumber(s);
      Parsed(Number(n), rest)
    else Failed
  }

  /** `parse_value` */
  function ParseValue(s: string): (r: Parsed<Json>)
    ensures r.Parsed? ==> |r.rest| < |s|
    decreases |s|, 2
  {
    if Head(s) == '[' then ParseArray(s)
    else if Head(s) == '{' then ParseObject(s)
    else ParseScalar(s)
  }

  function ParseArray(s: string): (r: Parsed<Json>)
    requires Head(s) == '['
    ensures r.Parsed? ==> |r.rest| < |s|
    decreases |s|, 1
  {
    var t := Skip(s[1..]);
    if Head(t) == ']' then Parsed(Array(NoItem), t[1..])
    else
      var first := ParseValue(Skip(t));
      if first.Failed? then Failed
      else
        var more := MoreItems(Skip(first.rest));
        if more.Failed? || Head(more.rest) != ']' then Failed
        else Parsed(Array(Item(first.value, more.value)), more.rest[1..])
  }

  /** The `while (*value == ',')` loop of `parse_array`. */
  function MoreItems(s: string): (r: Parsed<Items>)
    ensures r.Parsed? ==> |r.rest| <= |s|
    decreases |s|, 0
  {
    if Head(s) != ',' then Parsed(NoItem, s)
    else
      var first := ParseValue(Skip(s[1..]));
      if first.Failed? then Failed
      else
        var more := MoreItems(Skip(first.rest));
        if more.Failed? then Failed else Parsed(Item(first.value, more.value), more.rest)
  }

  /** A key, a colon and a value, with the whitespace after the value skipped. */
  function ParsePair(s: string): (r: Parsed<(string, Json)>)
    ensures r.Parsed? ==> |r.rest| < |s|
    decreases |s|, 3
  {
    var key := ParseString(Skip(s));
    if key.Failed? then Failed
    else
      var t := Skip(key.rest);
      if Head(t) != ':' then Failed
      else
        var v := ParseValue(Skip(t[1..]));
        if v.Failed? then Failed else Parsed((key.value, v.value), Skip(v.rest))
  }

  function ParseObject(s: string): (r: Parsed<Json>)
    requires Head(s) == '{'
    ensures r.Parsed? ==> |r.rest| < |s|
    decreases |s|, 1
  {
    var t := Skip(s[1..]);
    if Head(t) == '}' then Parsed(Object(NoMember), t[1..])
    else
      var first := ParsePair(t);
      if first.Failed? then Failed
      else
        var more := MoreMembers(first.rest);
        if more.Failed? || Head(more.rest) != '}' then Failed
        else Parsed(Object(Member(first.value.0, first.value.1, more.value)), more.rest[1..])
  }

  /** The `while (*value == ',')` loop of `parse_object`. */
  function MoreMembers(s: string): (r: Parsed<Members>)
    ensures r.Parsed? ==> |r.rest| <= |s|
    decreases |s|, 0
  {
    if Head(s) != ',' then Parsed(NoMember, s)
    else
      var first := ParsePair(s[1..]);
      if first.Failed? then Failed
      else
        var more := MoreMembers(first.rest);
        if more.Failed? then Failed
        else Parsed(Member(first.value.0, first.value.1, more.value), more.rest)
  }

  /** `cJSON_ParseWithOpts` */
  function ParseText(s: string, requireNullTerminated: bool): (r: Parsed<Json>)
    ensures r.Parsed? && requireNullTerminated ==> r.rest == ""
  {
    var r := ParseValue(Skip(s));
    if r.Failed? || !requireNullTerminated then r
    else
      var end := Skip(r.rest);
      if end == "" then Parsed(r.value, end) else Failed
  }
}
