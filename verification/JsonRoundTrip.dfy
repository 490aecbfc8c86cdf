/** `cJSON_Parse` reads back what either printer writes. */
module JsonRoundTrip {
  import Seqs
  import opened CText
  import opened JsonText
  import opened JsonParse

  /** What may follow a value: nothing that would continue a number. */
  predicate Delimited(post: string) {
    var c := Head(post);
    !IsDigit(c) && c != '.' && c != 'e' && c != 'E'
  }

  // ----- numbers -----

  lemma {:induction false} TakeDigitsOver(a: string, post: string, n: real)
    requires forall i :: 0 <= i < |a| ==> IsDigit(a[i])
    ensures TakeDigits(a + post, n) == TakeDigits(post, TakeDigits(a, n).0)
    ensures TakeDigits(a, n).1 == ""
  {
    if a == "" {
      assert a + post == post;
    } else {
      assert (a + post)[1..] == a[1..] + post;
      TakeDigitsOver(a[1..], post, n * 10.0 + DigitOf(a[0]) as real);
    }
  }

  lemma {:induction false} DigitsAreDigits(n: nat)
    ensures forall i :: 0 <= i < |Digits(n)| ==> IsDigit(Digits(n)[i])
    ensures n > 0 ==> Digits(n)[0] != '0'
    ensures n == 0 ==> Digits(n) == "0"
  {
    if n >= 10 {
      DigitsAreDigits(n / 10);
    }
  }

  lemma {:induction false} TakeDigitsOfDigits(n: nat)
    ensures TakeDigits(Digits(n), 0.0) == (n as real, "")
  {
    DigitsAreDigits(n);
    if n < 10 {
      assert TakeDigits("", n as real) == (n as real, "");
    } else {
      DigitsAreDigits(n / 10);
      TakeDigitsOver(Digits(n / 10), [DigitChar(n % 10)], 0.0);
      TakeDigitsOfDigits(n / 10);
      var last := [DigitChar(n % 10)];
      assert last[1..] == "";
      assert TakeDigits(last, (n / 10) as real) == ((n / 10) as real * 10.0 + (n % 10) as real, "");
      assert n == n / 10 * 10 + n % 10;
      assert (n / 10) as real * 10.0 == (n / 10 * 10) as real;
    }
  }

  lemma {:induction false} TakeDigitsStops(post: string, n: real)
    requires !IsDigit(Head(post))
    ensures TakeDigits(post, n) == (n, post)
  {
  }

  /** The magnitude of a number, after its sign. */
  lemma {:induction false} NaturalBack(n: nat, post: string)
    requires Delimited(post)
    ensures var s := Digits(n) + post;
      var t := SkipOne(s, '0');
      (if '1' <= Head(t) <= '9' then TakeDigits(t[1..], DigitOf(t[0]) as real) else (0.0, t)) == (n as real, post)
  {
    DigitsAreDigits(n);
    var d := Digits(n);
    var s := d + post;
    assert s[0] == d[0];
    if n == 0 {
      assert s[1..] == post;
    } else {
      assert SkipOne(s, '0') == s;
      TakeDigitsOver(d, post, 0.0);
      TakeDigitsOfDigits(n);
      TakeDigitsStops(post, n as real);
      assert TakeDigits(s, 0.0) == (n as real, post);
      assert 0.0 * 10.0 + DigitOf(s[0]) as real == DigitOf(s[0]) as real;
    }
  }

  lemma {:induction false} NumberBack(n: int, post: string)
    requires Delimited(post)
    ensures var s := ShowInt(n) + post;
      (Head(s) == '-' || IsDigit(Head(s))) && ParseNumber(s) == (n as real, post) && Head(s) != '[' && Head(s) != '{'
  {
    var s := ShowInt(n) + post;
    var m: nat := if n < 0 then -n else n;
    DigitsAreDigits(m);
    NaturalBack(m, post);
    assert s[0] == ShowInt(n)[0];
    if n < 0 {
      assert s[1..] == Digits(m) + post;
    }
    assert SkipOne(s, '-') == Digits(m) + post;
    assert Fraction(post, m as real) == (m as real, 0, post);
    assert Exponent(post) == (0, post);
    assert Pow10(0) == 1.0;
    assert n as real == (if n < 0 then -(m as real) else m as real);
  }

  // ----- strings -----

  lemma HexBack(n: int)
    requires 0 <= n < 16
    ensures IsHex(HexDigit(n)) && HexValue(HexDigit(n)) == n
  {
  }

  lemma ControlBack(c: char, post: string)
    requires '\0' < c < ' '
    ensures Unescape(ControlEscape(c) + post) == Parsed([c], post)
  {
    var s := ControlEscape(c) + post;
    var t := s[1..];
    assert s[0] == 'u';
    assert t[0] == '0' && t[1] == '0' && t[2] == HexDigit(c as int / 16) && t[3] == HexDigit(c as int % 16);
    HexBack(c as int / 16);
    HexBack(c as int % 16);
    assert Hex4(t) == c as int;
    assert t[4..] == post;
  }

  lemma EscapeBack(c: char, post: string)
    requires c != '\0'
    requires |Escape(c)| > 1
    ensures Head(Escape(c)) == '\\' && Unescape(Escape(c)[1..] + post) == Parsed([c], post)
  {
    var e := Escape(c)[1..];
    if |e| == 1 {
      assert (e + post)[1..] == post;
    } else {
      assert e == ControlEscape(c);
      ControlBack(c, post);
    }
  }

  lemma {:induction false} BodyBack(s: string, post: string)
    requires NulFree(s)
    ensures StringBody(EscapeAll(s) + "\"" + post) == Parsed(s, post)
  {
    if s == "" {
      assert ("\"" + post)[1..] == post;
    } else {
      BodyBack(s[1..], post);
      var tail := EscapeAll(s[1..]) + "\"" + post;
      assert EscapeAll(s) + "\"" + post == Escape(s[0]) + tail;
      CharBack(s[0], tail);
      assert s == [s[0]] + s[1..];
    }
  }

  lemma CharBack(c: char, tail: string)
    requires c != '\0' && StringBody(tail).Parsed?
    ensures StringBody(Escape(c) + tail) == Parsed([c] + StringBody(tail).value, StringBody(tail).rest)
  {
    hide Escape, Unescape;
    var e := Escape(c);
    EscapeShape(c);
    var text := e + tail;
    assert text[0] == e[0];
    if |e| == 1 {
      assert text[1..] == tail;
    } else {
      assert text[1..] == e[1..] + tail;
      EscapeBack(c, tail);
    }
  }

  lemma EscapeShape(c: char)
    ensures var e := Escape(c); if |e| == 1 then e == [c] && c != '\"' && c != '\\' else e[0] == '\\'
  {
  }

  lemma StringBack(s: string, post: string)
    requires NulFree(s)
    ensures ParseString(Quote(s) + post) == Parsed(s, post)
  {
    BodyBack(s, post);
    assert (Quote(s) + post)[1..] == EscapeAll(s) + "\"" + post;
  }

  // ----- whitespace -----

  lemma {:induction false} SkipTabs(n: int, post: string)
    ensures Skip(Tabs(n) + post) == Skip(post)
    decreases n
  {
    if n <= 0 {
      assert Tabs(n) + post == post;
    } else {
      assert (Tabs(n) + post)[1..] == Tabs(n - 1) + post;
      SkipTabs(n - 1, post);
    }
  }

  /** No value's text starts with whitespace or a closing bracket. */
  lemma PrintStarts(v: Json, depth: nat, fmt: bool)
    ensures |Print(v, depth, fmt)| > 0
    ensures Print(v, depth, fmt)[0] > ' ' && Print(v, depth, fmt)[0] != ']' && Print(v, depth, fmt)[0] != '}'
  {
  }

  lemma SkipPrint(v: Json, depth: nat, fmt: bool, post: string)
    ensures Skip(Print(v, depth, fmt) + post) == Print(v, depth, fmt) + post
  {
    PrintStarts(v, depth, fmt);
  }

  // ----- values -----

  /** Parsing the text of `v`, wherever it stands, gives `v` and stops behind it. */
  lemma {:induction false} ValueBack(v: Json, depth: nat, fmt: bool, post: string)
    requires Printable(v) && Delimited(post)
    ensures ParseValue(Print(v, depth, fmt) + post) == Parsed(v, post)
    decreases v, 1
  {
    var text := Print(v, depth, fmt) + post;
    match v
    case Null => assert "null" <= text && text[4..] == post;
    case False => assert "false" <= text && text[5..] == post;
    case True => assert "true" <= text && text[4..] == post;
    case Number(d) => NumberBack(d.Floor, post);
    case String(s) => StringBack(s, post);
    case Array(items) => ArrayBack(items, depth, fmt, post);
    case Object(members) =>
      if members.NoMember? {
        EmptyObjectBack(depth, fmt, post);
      } else {
        ObjectBack(members, depth, fmt, post);
      }
  }

  lemma {:induction false} ArrayBack(items: Items, depth: nat, fmt: bool, post: string)
    requires PrintableItems(items)
    ensures var s := Print(Array(items), depth, fmt) + post;
      Head(s) == '[' && ParseArray(s) == Parsed(Array(items), post)
    decreases items, 2
  {
    var text := Print(Array(items), depth, fmt) + post;
    var inner := PrintItems(items, depth, fmt) + ("]" + post);
    assert text[1..] == inner;
    assert ("]" + post)[1..] == post;
    if items.NoItem? {
      assert inner == "]" + post;
    } else {
      ItemBack(items, depth, fmt, "]" + post);
    }
  }

  lemma SkipGap(gap: string, s: string)
    requires gap == "" || gap == " " || gap == "\t" || gap == "\n"
    ensures Skip(gap + s) == Skip(s)
  {
    if gap == "" {
      assert gap + s == s;
    } else {
      assert (gap + s)[1..] == s;
    }
  }

  /** The text of an array behind its first item. */
  function AfterItem(next: Items, depth: nat, fmt: bool): string {
    if next.NoItem? then "" else Comma(fmt) + PrintItems(next, depth, fmt)
  }

  lemma CommaItem(fmt: bool, s: string)
    requires Skip(s) == s
    ensures var t := Comma(fmt) + s; Head(t) == ',' && Skip(t) == t && Skip(t[1..]) == s
  {
    var gap := if fmt then " " else "";
    assert Comma(fmt) + s == "," + (gap + s);
    assert ("," + (gap + s))[1..] == gap + s;
    SkipGap(gap, s);
  }

  /** One item and the items after it, up to the closing bracket. */
  lemma {:induction false} ItemBack(items: Items, depth: nat, fmt: bool, post: string)
    requires items.Item? && PrintableItems(items) && Head(post) == ']'
    ensures var s := PrintItems(items, depth, fmt) + post;
      && Skip(s) == s && s != "" && Head(s) != ']'
      && ParseValue(s).Parsed? && ParseValue(s).value == items.head
      && MoreItems(Skip(ParseValue(s).rest)) == Parsed(items.next, post)
    decreases items, 0
  {
    var head, next := items.head, items.next;
    var rest := AfterItem(next, depth, fmt) + post;
    Seqs.Assoc(Print(head, depth + 1, fmt), AfterItem(next, depth, fmt), post);
    assert PrintItems(items, depth, fmt) + post == Print(head, depth + 1, fmt) + rest;
    PrintStarts(head, depth + 1, fmt);
    SkipPrint(head, depth + 1, fmt, rest);
    if next.NoItem? {
      assert rest == post;
    } else {
      var s1 := PrintItems(next, depth, fmt) + post;
      ItemBack(next, depth, fmt, post);
      Seqs.Assoc(Comma(fmt), PrintItems(next, depth, fmt), post);
      CommaItem(fmt, s1);
    }
    ValueBack(head, depth + 1, fmt, rest);
  }

  lemma EmptyObjectBack(depth: nat, fmt: bool, post: string)
    ensures var s := Print(Object(NoMember), depth, fmt) + post;
      Head(s) == '{' && ParseObject(s) == Parsed(Object(NoMember), post)
  {
    var text := Print(Object(NoMember), depth, fmt) + post;
    var close := "}" + post;
    assert close[1..] == post;
    if fmt {
      var line := Tabs(depth - 1) + close;
      assert text[1..] == "\n" + line;
      assert ("\n" + line)[1..] == line;
      SkipTabs(depth - 1, close);
    } else {
      assert text[1..] == close;
    }
    assert Skip(text[1..]) == close;
  }

  function Line(fmt: bool): string {
    if fmt then "\n" else ""
  }

  function Indent(fmt: bool, depth: int): string {
    if fmt then Tabs(depth) else ""
  }

  lemma SkipIndent(fmt: bool, depth: int, s: string)
    ensures Skip(Indent(fmt, depth) + s) == Skip(s)
  {
    SkipTabs(depth, s);
    assert "" + s == s;
  }

  lemma ObjectText(members: Members, depth: nat, fmt: bool, post: string)
    requires members.Member?
    ensures Print(Object(members), depth, fmt) + post
         == "{" + (Line(fmt) + (PrintMembers(members, depth + 1, fmt) + (Indent(fmt, depth) + ("}" + post))))
  {
    var l, m, i := Line(fmt), PrintMembers(members, depth + 1, fmt), Indent(fmt, depth);
    assert Print(Object(members), depth, fmt) == "{" + l + m + i + "}";
    Regroup("{", l, m, i, "}", post);
  }

  lemma Regroup(a: string, b: string, c: string, d: string, e: string, f: string)
    ensures (a + b + c + d + e) + f == a + (b + (c + (d + (e + f))))
  {
  }

  lemma {:induction false} ObjectBack(members: Members, depth: nat, fmt: bool, post: string)
    requires members.Member? && PrintableMembers(members)
    ensures var s := Print(Object(members), depth, fmt) + post;
      Head(s) == '{' && ParseObject(s) == Parsed(Object(members), post)
    decreases members, 2
  {
    var text := Print(Object(members), depth, fmt) + post;
    var brace := "}" + post;
    var close := Indent(fmt, depth) + brace;
    var body := PrintMembers(members, depth + 1, fmt) + close;
    ObjectText(members, depth, fmt, post);
    assert text[1..] == Line(fmt) + body;
    SkipGap(Line(fmt), body);
    SkipIndent(fmt, depth, brace);
    assert Skip(close) == brace;
    PairBack(members, depth + 1, fmt, close);
    PairSkips(body);
    assert brace[1..] == post;
  }

  /** The text of an object behind the value of one member. */
  function AfterMember(after: Members, depth: nat, fmt: bool, close: string): string {
    (if after.NoMember? then "" else ",") + (Line(fmt) + (PrintMembers(after, depth, fmt) + close))
  }

  lemma MemberText(members: Members, depth: nat, fmt: bool, close: string)
    requires members.Member?
    ensures PrintMembers(members, depth, fmt) + close
         == Indent(fmt, depth) + (Quote(members.key) + ((if fmt then ":\t" else ":")
            + (Print(members.value, depth, fmt) + AfterMember(members.after, depth, fmt, close))))
  {
    var i, q, c, v := Indent(fmt, depth), Quote(members.key), if fmt then ":\t"
      else ":", Print(members.value, depth, fmt);
    var m, l, p := if members.after.NoMember? then "" else ",", Line(fmt), PrintMembers(members.after, depth, fmt);
    assert PrintMembers(members, depth, fmt) == i + q + c + v + m + l + p;
    Regroup(i, q, c, v, m + (l + p), close);
    Seqs.Assoc(i + q + c + v, m + l, p);
    Seqs.Assoc(i + q + c + v, m, l);
    Seqs.Assoc(m, l, p);
    Seqs.Assoc(m, l + p, close);
    Seqs.Assoc(l, p, close);
    assert i + q + c + v + m + l + p == i + q + c + v + (m + (l + p));
  }

  /** One key and value and the members after them, up to the closing brace. */
  lemma {:induction false} PairBack(members: Members, depth: nat, fmt: bool, close: string)
    requires members.Member? && PrintableMembers(members) && Head(Skip(close)) == '}'
    ensures var s := Skip(PrintMembers(members, depth, fmt) + close);
      && Head(s) == '\"'
      && ParsePair(s).Parsed? && ParsePair(s).value == (members.key, members.value)
      && MoreMembers(ParsePair(s).rest) == Parsed(members.after, Skip(close))
    decreases members, 0
  {
    hide Skip, Print, Quote, ParseValue;
    var Member(key, value, after) := members;
    var rest := AfterMember(after, depth, fmt, close);
    var v := Print(value, depth, fmt) + rest;
    var s := Quote(key) + ((if fmt then ":\t" else ":") + v);
    MemberText(members, depth, fmt, close);
    SkipIndent(fmt, depth, s);
    SkipPrint(value, depth, fmt, rest);
    KeyColon(key, fmt, v);
    RestOfMembers(after, depth, fmt, close);
    ValueBack(value, depth, fmt, rest);
    assert ParsePair(s) == Parsed((key, value), Skip(rest));
    if after.Member? {
      PairBack(after, depth, fmt, close);
    }
  }

  /** Behind a value comes the close, or a comma and the next member. */
  lemma RestOfMembers(after: Members, depth: nat, fmt: bool, close: string)
    requires Head(Skip(close)) == '}'
    ensures var t := AfterMember(after, depth, fmt, close);
      && Delimited(t)
      && (after.NoMember? ==> Skip(t) == Skip(close))
      && (after.Member? ==> Head(t) == ',' && Skip(t) == t)
      && (after.Member? ==> ParsePair(t[1..]) == ParsePair(Skip(PrintMembers(after, depth, fmt) + close)))
  {
    var s1 := PrintMembers(after, depth, fmt) + close;
    var t := AfterMember(after, depth, fmt, close);
    SkipGap(Line(fmt), s1);
    if after.NoMember? {
      assert s1 == close;
      assert t == Line(fmt) + close;
      assert fmt ==> t[0] == '\n';
      assert !fmt ==> t == close;
    } else {
      assert t[1..] == Line(fmt) + s1;
      PairSkips(t[1..]);
    }
  }

  /** The key, the colon and the tab after it. */
  lemma KeyColon(key: string, fmt: bool, v: string)
    requires NulFree(key) && Skip(v) == v
    ensures var s := Quote(key) + ((if fmt then ":\t" else ":") + v);
      Skip(s) == s && ParseString(s).Parsed? && ParseString(s).value == key
      && var t := Skip(ParseString(s).rest); Head(t) == ':' && Skip(t[1..]) == v
  {
    var colon := (if fmt then ":\t" else ":") + v;
    StringBack(key, colon);
    assert colon[1..] == (if fmt then "\t" else "") + v;
    assert ("\t" + v)[1..] == v;
  }

  lemma PairSkips(s: string)
    ensures ParsePair(Skip(s)) == ParsePair(s)
  {
    SkipTwice(s);
  }

  lemma SkipTwice(s: string)
    ensures Skip(Skip(s)) == Skip(s)
  {
  }

  /** `cJSON_Parse(cJSON_Print(v))` and `cJSON_Parse(cJSON_PrintUnformatted(v))` both give `v`. */
  lemma ParsePrint(v: Json, fmt: bool, requireNullTerminated: bool)
    requires Printable(v)
    ensures ParseText(Print(v, 0, fmt), requireNullTerminated) == Parsed(v, "")
  {
    var text := Print(v, 0, fmt);
    assert text + "" == text;
    SkipPrint(v, 0, fmt, "");
    ValueBack(v, 0, fmt, "");
  }
}
