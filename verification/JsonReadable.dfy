/** What the printers write is within the domain of the parsing methods. */
module JsonReadable {
  import Seqs
  import opened CText
  import opened JsonText
  import opened JsonItem
  import opened JsonParse
  import opened JsonReader
  import opened JsonWriter
  import JsonRoundTrip

  predicate Quiet(s: string) {
    forall i :: 0 <= i < |s| ==> s[i] != '\"'
  }

  /** Every literal of `s`, which starts outside a literal, is well escaped. */
  predicate Lexed(s: string)
    decreases |s|
  {
    s == "" ||
    (if s[0] != '\"' then Lexed(s[1..])
     else WellEscaped(s[1..]) && StringBody(s[1..]).Parsed? && Lexed(StringBody(s[1..]).rest))
  }

  lemma {:induction false} SkipLexed(s: string)
    requires Lexed(s)
    ensures Lexed(JsonParse.Skip(s))
  {
    if s != "" && s[0] <= ' ' {
      SkipLexed(s[1..]);
    }
  }

  lemma {:induction false} DigitsLexed(s: string, n: real)
    requires Lexed(s)
    ensures Lexed(TakeDigits(s, n).1)
  {
    if s != "" && IsDigit(s[0]) {
      DigitsLexed(s[1..], n * 10.0 + DigitOf(s[0]) as real);
    }
  }

  lemma ExponentLexed(s: string)
    requires Lexed(s)
    ensures Lexed(JsonParse.Exponent(s).1)
  {
    if Head(s) == 'e' || Head(s) == 'E' {
      var t := if Head(s[1..]) == '+' then s[2..] else SkipOne(s[1..], '-');
      if Head(s[1..]) == '+' {
        assert s[1..][1..] == s[2..];
      }
      assert Lexed(t);
      DigitsLexed(t, 0.0);
    }
  }

  lemma NumberLexed(s: string)
    requires Lexed(s) && (Head(s) == '-' || IsDigit(Head(s)))
    ensures Lexed(JsonParse.ParseNumber(s).1)
  {
    var t := SkipOne(SkipOne(s, '-'), '0');
    assert Lexed(SkipOne(s, '-'));
    assert Lexed(t);
    var (n, u) := if '1' <= Head(t) <= '9' then TakeDigits(t[1..], DigitOf(t[0]) as real) else (0.0, t);
    if '1' <= Head(t) <= '9' {
      DigitsLexed(t[1..], DigitOf(t[0]) as real);
    }
    var (m, scale, v) := JsonParse.Fraction(u, n);
    if Head(u) == '.' && IsDigit(Second(u)) {
      DigitsLexed(u[1..], n);
    }
    ExponentLexed(v);
  }

  lemma WordLexed(word: string, s: string)
    requires Lexed(s) && word <= s && forall i :: 0 <= i < |word| ==> word[i] != '\"'
    ensures Lexed(s[|word|..])
  {
    if word == "" {
      assert s[0..] == s;
    } else {
      WordLexed(word[1..], s[1..]);
      assert s[1..][|word| - 1..] == s[|word|..];
    }
  }

  // ----- such texts are within the domain -----

  lemma StringLexed(s: string)
    requires Lexed(s)
    ensures ScalarOk(s)
    ensures var r := JsonParse.ParseString(s); r.Parsed? ==> Lexed(r.rest)
  {
  }

  lemma ScalarLexed(s: string)
    requires Lexed(s)
    ensures var r := JsonParse.ParseScalar(s); r.Parsed? ==> Lexed(r.rest)
  {
    if "null" <= s {
      WordLexed("null", s);
    } else if "false" <= s {
      WordLexed("false", s);
    } else if "true" <= s {
      WordLexed("true", s);
    } else if Head(s) == '\"' {
      StringLexed(s);
    } else if Head(s) == '-' || IsDigit(Head(s)) {
      NumberLexed(s);
    }
  }

  lemma {:induction false} ValueOkLexed(s: string)
    requires Lexed(s)
    ensures ValueOk(s) && (var r := JsonParse.ParseValue(s); r.Parsed? ==> Lexed(r.rest))
    decreases |s|, 2
  {
    if Head(s) == '[' {
      ArrayOkLexed(s);
    } else if Head(s) == '{' {
      ObjectOkLexed(s);
    } else {
      StringLexed(s);
      ScalarLexed(s);
    }
  }

  lemma {:induction false} ArrayOkLexed(s: string)
    requires Lexed(s) && Head(s) == '['
    ensures ArrayOk(s) && (var r := JsonParse.ParseArray(s); r.Parsed? ==> Lexed(r.rest))
    decreases |s|, 1
  {
    SkipLexed(s[1..]);
    var t := JsonParse.Skip(s[1..]);
    if Head(t) != ']' {
      SkipLexed(t);
      FirstOkLexed(JsonParse.Skip(t));
    }
  }

  lemma {:induction false} FirstOkLexed(s: string)
    requires Lexed(s)
    ensures FirstOk(s)
    ensures var r := JsonParse.ParseValue(s); r.Parsed? ==>
      var more := MoreItems(JsonParse.Skip(r.rest)); more.Parsed? ==> Lexed(more.rest)
    decreases |s|, 3
  {
    ValueOkLexed(s);
    var r := JsonParse.ParseValue(s);
    if r.Parsed? {
      SkipLexed(r.rest);
      ItemsOkLexed(JsonParse.Skip(r.rest));
    }
  }

  lemma {:induction false} ItemsOkLexed(s: string)
    requires Lexed(s)
    ensures ItemsOk(s) && (var r := MoreItems(s); r.Parsed? ==> Lexed(r.rest))
    decreases |s|, 0
  {
    if Head(s) == ',' {
      SkipLexed(s[1..]);
      FirstOkLexed(JsonParse.Skip(s[1..]));
    }
  }

  lemma {:induction false} PairOkLexed(s: string)
    requires Lexed(s)
    ensures PairOk(s) && (var r := JsonParse.ParsePair(s); r.Parsed? ==> Lexed(r.rest))
    decreases |s|, 3
  {
    SkipLexed(s);
    StringLexed(JsonParse.Skip(s));
    var key := JsonParse.ParseString(JsonParse.Skip(s));
    if key.Parsed? {
      SkipLexed(key.rest);
      var t := JsonParse.Skip(key.rest);
      if Head(t) == ':' {
        SkipLexed(t[1..]);
        ValueOkLexed(JsonParse.Skip(t[1..]));
        var v := JsonParse.ParseValue(JsonParse.Skip(t[1..]));
        if v.Parsed? {
          SkipLexed(v.rest);
        }
      }
    }
  }

  lemma {:induction false} ObjectOkLexed(s: string)
    requires Lexed(s) && Head(s) == '{'
    ensures ObjectOk(s) && (var r := JsonParse.ParseObject(s); r.Parsed? ==> Lexed(r.rest))
    decreases |s|, 1
  {
    SkipLexed(s[1..]);
    var t := JsonParse.Skip(s[1..]);
    if Head(t) != '}' {
      FirstPairOkLexed(t);
    }
  }

  lemma {:induction false} FirstPairOkLexed(s: string)
    requires Lexed(s)
    ensures FirstPairOk(s)
    ensures var r := JsonParse.ParsePair(s); r.Parsed? ==>
      var more := MoreMembers(r.rest); more.Parsed? ==> Lexed(more.rest)
    decreases |s|, 4
  {
    PairOkLexed(s);
    var r := JsonParse.ParsePair(s);
    if r.Parsed? {
      MembersOkLexed(r.rest);
    }
  }

  lemma {:induction false} MembersOkLexed(s: string)
    requires Lexed(s)
    ensures MembersOk(s) && (var r := MoreMembers(s); r.Parsed? ==> Lexed(r.rest))
    decreases |s|, 0
  {
    if Head(s) == ',' {
      FirstPairOkLexed(s[1..]);
    }
  }

  // ----- the printed texts -----

  lemma {:induction false} QuietLexed(a: string, post: string)
    requires Quiet(a) && Lexed(post)
    ensures Lexed(a + post)
  {
    if a == "" {
      assert a + post == post;
    } else {
      assert (a + post)[1..] == a[1..] + post;
      QuietLexed(a[1..], post);
    }
  }

  lemma {:induction false} EscapedWell(s: string, post: string)
    requires NulFree(s)
    ensures WellEscaped(EscapeAll(s) + "\"" + post)
  {
    var t := EscapeAll(s) + "\"" + post;
    if s != "" {
      var e := Escape(s[0]);
      var tail := EscapeAll(s[1..]) + "\"" + post;
      assert t == e + tail;
      EscapedWell(s[1..], post);
      if |e| == 1 {
        assert t[1..] == tail;
      } else if |e| == 2 {
        assert t[2..] == tail;
      } else {
        assert e == "\\" + ControlEscape(s[0]);
        JsonRoundTrip.HexBack(s[0] as int / 16);
        JsonRoundTrip.HexBack(s[0] as int % 16);
        assert t[1] == 'u' && t[2] == '0' && t[3] == '0' && t[6..] == tail;
        assert t[4] == HexDigit(s[0] as int / 16) && t[5] == HexDigit(s[0] as int % 16);
      }
    }
  }

  lemma QuoteLexed(s: string, post: string)
    requires NulFree(s) && Lexed(post)
    ensures Lexed(Quote(s) + post)
  {
    hide EscapeAll, StringBody, WellEscaped;
    EscapedWell(s, post);
    JsonRoundTrip.BodyBack(s, post);
    assert (Quote(s) + post)[1..] == EscapeAll(s) + "\"" + post;
  }

  lemma {:induction false} DigitsQuiet(n: nat)
    ensures Quiet(JsonText.Digits(n))
  {
    if n >= 10 {
      DigitsQuiet(n / 10);
    }
  }

  lemma {:induction false} TabsQuiet(n: int)
    ensures Quiet(Tabs(n))
    decreases n
  {
    if n > 0 {
      TabsQuiet(n - 1);
    }
  }

  lemma {:induction false} ValueLexed(v: Json, depth: nat, fmt: bool, post: string)
    requires Printable(v) && Lexed(post)
    ensures Lexed(Print(v, depth, fmt) + post)
    decreases v, 1
  {
    match v
    case Null => QuietLexed("null", post);
    case False => QuietLexed("false", post);
    case True => QuietLexed("true", post);
    case Number(d) =>
      DigitsQuiet(if d.Floor < 0 then -d.Floor else d.Floor);
      QuietLexed(ShowInt(d.Floor), post);
    case String(s) => QuoteLexed(s, post);
    case Array(items) =>
      QuietLexed("]", post);
      ItemsLexed(items, depth, fmt, "]" + post);
      QuietLexed("[", PrintItems(items, depth, fmt) + ("]" + post));
      Seqs.Assoc("[" + PrintItems(items, depth, fmt), "]", post);
      Seqs.Assoc("[", PrintItems(items, depth, fmt), "]" + post);
    case Object(members) =>
      if members.NoMember? {
        TabsQuiet(depth - 1);
        QuietLexed(Print(v, depth, fmt), post);
      } else {
        ObjectLexed(members, depth, fmt, post);
      }
  }

  lemma {:induction false} ItemsLexed(items: Items, depth: nat, fmt: bool, post: string)
    requires PrintableItems(items) && Lexed(post)
    ensures Lexed(PrintItems(items, depth, fmt) + post)
    decreases items, 0
  {
    if items.NoItem? {
      assert "" + post == post;
    } else {
      var behind := JsonRoundTrip.AfterItem(items.next, depth, fmt);
      if items.next.NoItem? {
        assert behind + post == post;
      } else {
        ItemsLexed(items.next, depth, fmt, post);
        QuietLexed(Comma(fmt), PrintItems(items.next, depth, fmt) + post);
        Seqs.Assoc(Comma(fmt), PrintItems(items.next, depth, fmt), post);
      }
      ValueLexed(items.head, depth + 1, fmt, behind + post);
      Seqs.Assoc(Print(items.head, depth + 1, fmt), behind, post);
    }
  }

  lemma {:induction false} ObjectLexed(members: Members, depth: nat, fmt: bool, post: string)
    requires members.Member? && PrintableMembers(members) && Lexed(post)
    ensures Lexed(Print(Object(members), depth, fmt) + post)
    decreases members, 1
  {
    var close := JsonRoundTrip.Indent(fmt, depth) + ("}" + post);
    QuietLexed("}", post);
    TabsQuiet(depth);
    QuietLexed(JsonRoundTrip.Indent(fmt, depth), "}" + post);
    MembersLexed(members, depth + 1, fmt, close);
    var body := PrintMembers(members, depth + 1, fmt) + close;
    QuietLexed(JsonRoundTrip.Line(fmt), body);
    QuietLexed("{", JsonRoundTrip.Line(fmt) + body);
    JsonRoundTrip.ObjectText(members, depth, fmt, post);
  }

  lemma {:induction false} MembersLexed(members: Members, depth: nat, fmt: bool, close: string)
    requires PrintableMembers(members) && Lexed(close)
    ensures Lexed(PrintMembers(members, depth, fmt) + close)
    decreases members, 0
  {
    if members.NoMember? {
      assert "" + close == close;
    } else {
      var after := JsonRoundTrip.AfterMember(members.after, depth, fmt, close);
      MembersLexed(members.after, depth, fmt, close);
      QuietLexed(JsonRoundTrip.Line(fmt), PrintMembers(members.after, depth, fmt) + close);
      var m := if members.after.NoMember? then "" else ",";
      QuietLexed(m, JsonRoundTrip.Line(fmt) + (PrintMembers(members.after, depth, fmt) + close));
      ValueLexed(members.value, depth, fmt, after);
      var colon := if fmt then ":\t" else ":";
      QuietLexed(colon, Print(members.value, depth, fmt) + after);
      QuoteLexed(members.key, colon + (Print(members.value, depth, fmt) + after));
      TabsQuiet(depth);
      QuietLexed(JsonRoundTrip.Indent(fmt, depth),
        Quote(members.key) + (colon + (Print(members.value, depth, fmt) + after)));
      JsonRoundTrip.MemberText(members, depth, fmt, close);
    }
  }

  /**
   The text of a printable tree is a C string whose literals are well escaped, so
   `JsonReader.ParseWithOpts` may be called on it, and parsing it gives the tree.
   */
  lemma PrintedReadable(v: Json, fmt: bool)
    requires Printable(v)
    ensures NulFree(Print(v, 0, fmt)) && ValueOk(JsonParse.Skip(Print(v, 0, fmt)))
    ensures ParseText(Print(v, 0, fmt), true) == Parsed(v, "")
  {
    PrintNulFree(v, 0, fmt);
    ValueLexed(v, 0, fmt, "");
    assert Print(v, 0, fmt) + "" == Print(v, 0, fmt);
    SkipLexed(Print(v, 0, fmt));
    ValueOkLexed(JsonParse.Skip(Print(v, 0, fmt)));
    JsonRoundTrip.ParsePrint(v, fmt, true);
  }

  /** A tree printed, in either format, and parsed again: an equal tree of new nodes. */
  method Reread(item: CJson, fmt: bool) returns (root: CJson?)
    requires item.Valid() && Printable(item.View())
    ensures root != null && fresh(root) && root.Valid() && root.View() == old(item.View())
  {
    hide *;
    ghost var v := item.View();
    PrintedReadable(v, fmt);
    var out := PrintText(item, fmt);
    var end;
    root, end := ParseWithOpts(CStr(out[..], 0), true);
  }
}
