/**
 The layout of formatted JSON, as one reads it from left to right: where a line
 ends, how far the next one is indented, and what stands behind commas and
 colons.
 */
module JsonLayout {
  import Seqs
  import opened CText
  import opened JsonText

  /**
   Where the reader stands: in front of a value, behind one, at the beginning of a line, behind an opening brace,
     a comma
   or a colon, or within a string.  `first` is the line behind an opening brace.
   */
  datatype Spot =
    | Front
    | Behind
    | Margin(tabs: nat, first: bool)
    | Brace
    | Comma
    | Colon
    | Within(escaped: bool)

  /** The open brackets, the innermost last; `Bad` is no layout. */
  datatype State = At(open: seq<char>, spot: Spot) | Bad

  function Inner(open: seq<char>): char {
    if open == [] then '\0' else open[|open| - 1]
  }

  function Close(open: seq<char>, bracket: char): State {
    if open != [] && Inner(open) == bracket then At(open[..|open| - 1], Behind) else Bad
  }

  /** The brace of an empty object stands one tab further left than the one that closes members. */
  function Indent(open: seq<char>, first: bool): nat {
    var n := |open| - if first then 2 else 1;
    if n < 0 then 0 else n
  }

  /** A line begins with a tab for each open bracket, and then a key; or with one fewer, and then the closing brace. */
  function Line(open: seq<char>, tabs: nat, first: bool, c: char): State
    requires open != []
  {
    if c == '\t' then At(open, Margin(tabs + 1, first))
    else if c == '\"' then (if tabs == |open| then At(open, Within(false)) else Bad)
    else if c == '}' then (if tabs == Indent(open, first) then Close(open, '{') else Bad)
    else Bad
  }

  function Literal(open: seq<char>, escaped: bool, c: char): State {
    if c < ' ' then Bad
    else if escaped then At(open, Within(false))
    else if c == '\"' then At(open, Behind)
    else At(open, Within(c == '\\'))
  }

  function Next(s: State, c: char): State {
    if s.Bad? then Bad
    else match s.spot {
      case Within(escaped) => Literal(s.open, escaped, c)
      case Margin(tabs, first) => if s.open == [] then Bad else Line(s.open, tabs, first, c)
      case Brace => if c == '\n' then At(s.open, Margin(0, true)) else Bad
      case Comma =>
        if Inner(s.open) == '[' && c == ' ' then At(s.open, Front)
        else if Inner(s.open) == '{' && c == '\n' then At(s.open, Margin(0, false))
        else Bad
      case Colon => if c == '\t' then At(s.open, Front) else Bad
      case Front =>
        if c == '{' then At(s.open + [c], Brace)
        else if c == '[' then At(s.open + [c], Front)
        else if c == '\"' then At(s.open, Within(false))
        else if c == ']' then Close(s.open, '[')
        else if c > ' ' then At(s.open, Behind)
        else Bad
      case Behind =>
        if c == ',' then At(s.open, Comma)
        else if c == ':' then At(s.open, Colon)
        else if c == ']' then Close(s.open, '[')
        else if c == '\n' then (if Inner(s.open) == '{' then At(s.open, Margin(0, false)) else Bad)
        else if c > ' ' && c != '{' && c != '[' && c != '}' && c != '\"' then At(s.open, Behind)
        else Bad
    }
  }

  function Run(s: State, text: string): State
    decreases |text|
  {
    if text == "" then s else Run(Next(s, text[0]), text[1..])
  }

  lemma {:induction false} RunCat(s: State, a: string, b: string)
    ensures Run(s, a + b) == Run(Run(s, a), b)
    decreases |a|
  {
    if a == "" {
      assert a + b == b;
    } else {
      assert (a + b)[0] == a[0] && (a + b)[1..] == a[1..] + b;
      RunCat(Next(s, a[0]), a[1..], b);
    }
  }

  lemma RunOne(s: State, c: char, b: string)
    ensures Run(s, [c]) == Next(s, c) && Run(s, [c] + b) == Run(Next(s, c), b)
  {
    assert [c][1..] == "" && ([c] + b)[1..] == b;
  }

  // ----- strings and numbers -----

  lemma {:induction false} RunEscaped(open: seq<char>, s: string)
    ensures Run(At(open, Within(false)), EscapeAll(s)) == At(open, Within(false))
    decreases |s|
  {
    if s != "" {
      RunEscape(open, s[0]);
      RunEscaped(open, s[1..]);
      RunCat(At(open, Within(false)), Escape(s[0]), EscapeAll(s[1..]));
      hide Run, Escape;
    }
  }

  lemma RunEscape(open: seq<char>, c: char)
    ensures Run(At(open, Within(false)), Escape(c)) == At(open, Within(false))
  {
    var s, e := At(open, Within(false)), Escape(c);
    if |e| == 1 {
      RunOne(s, c, "");
    } else if |e| == 2 {
      assert e == [e[0]] + [e[1]];
      RunOne(s, e[0], [e[1]]);
      RunOne(At(open, Within(true)), e[1], "");
    } else {
      var h := [HexDigit(c as int / 16), HexDigit(c as int % 16)];
      assert e == "\\" + ("u00" + h);
      RunOne(s, '\\', "u00" + h);
      assert "u00" + h == "u" + ("00" + h);
      RunOne(At(open, Within(true)), 'u', "00" + h);
      RunPlain(open, "00" + h);
    }
  }

  lemma {:induction false} RunPlain(open: seq<char>, t: string)
    requires forall i :: 0 <= i < |t| ==> t[i] >= ' ' && t[i] != '\\' && t[i] != '\"'
    ensures Run(At(open, Within(false)), t) == At(open, Within(false))
    decreases |t|
  {
    if t != "" {
      RunPlain(open, t[1..]);
    }
  }

  lemma RunQuote(s: State, open: seq<char>, t: string)
    requires Next(s, '\"') == At(open, Within(false))
    ensures Run(s, Quote(t)) == At(open, Behind)
  {
    hide Next;
    var e := EscapeAll(t);
    Seqs.Assoc("\"", e, "\"");
    RunOne(s, '\"', e + "\"");
    RunEscaped(open, t);
    RunCat(At(open, Within(false)), e, "\"");
    RunOne(At(open, Within(false)), '\"', "");
    EndQuote(open);
  }

  lemma EndQuote(open: seq<char>)
    ensures Next(At(open, Within(false)), '\"') == At(open, Behind)
  {
  }

  lemma {:induction false} RunWord(open: seq<char>, t: string)
    requires forall i :: 0 <= i < |t| ==> IsDigit(t[i]) || 'a' <= t[i] <= 'z' || t[i] == '-'
    ensures t != "" ==> Run(At(open, Front), t) == At(open, Behind)
    ensures Run(At(open, Behind), t) == At(open, Behind)
    decreases |t|
  {
    if t != "" {
      RunWord(open, t[1..]);
      WordStep(open, t[0]);
      hide Next;
    }
  }

  lemma WordStep(open: seq<char>, c: char)
    requires IsDigit(c) || 'a' <= c <= 'z' || c == '-'
    ensures Next(At(open, Front), c) == At(open, Behind) == Next(At(open, Behind), c)
  {
  }

  lemma {:induction false} DigitsWord(n: nat)
    ensures forall i :: 0 <= i < |Digits(n)| ==> IsDigit(Digits(n)[i])
  {
    if n >= 10 {
      DigitsWord(n / 10);
    }
  }

  lemma {:induction false} RunTabs(open: seq<char>, k: nat, first: bool, n: int)
    requires open != []
    ensures Run(At(open, Margin(k, first)), Tabs(n)) == At(open, Margin(k + if n > 0 then n else 0, first))
    decreases n
  {
    if n > 0 {
      RunOne(At(open, Margin(k, first)), '\t', Tabs(n - 1));
      RunTabs(open, k + 1, first, n - 1);
    }
  }

  // ----- values -----

  /** A value leads from the place in front of it to the place behind it. */
  lemma {:induction false} RunValue(v: Json, open: seq<char>)
    ensures Run(At(open, Front), Print(v, |open|, true)) == At(open, Behind)
    decreases v, 2
  {
    hide Run, Next, Quote, PrintItems;
    match v
    case Null => RunWord(open, "null");
    case False => RunWord(open, "false");
    case True => RunWord(open, "true");
    case Number(d) =>
      DigitsWord(if d.Floor < 0 then -d.Floor else d.Floor);
      RunWord(open, ShowInt(d.Floor));
    case String(t) =>
      KeyStep(open);
      RunQuote(At(open, Front), open, t);
    case Array(items) => RunArray(items, open);
    case Object(members) => RunObject(members, open);
  }

  lemma KeyStep(open: seq<char>)
    ensures Next(At(open, Front), '\"') == At(open, Within(false))
  {
  }

  lemma ArraySteps(open: seq<char>)
    ensures var i := open + ['['];
      && Inner(i) == '[' && Next(At(open, Front), '[') == At(i, Front)
      && Next(At(i, Front), ']') == At(open, Behind) == Next(At(i, Behind), ']')
  {
    assert (open + ['['])[..|open|] == open;
  }

  lemma {:induction false} RunArray(items: Items, open: seq<char>)
    ensures Run(At(open, Front), "[" + PrintItems(items, |open|, true) + "]") == At(open, Behind)
    decreases items, 2
  {
    hide Run, Next, PrintItems;
    var p, inner := PrintItems(items, |open|, true), open + ['['];
    Seqs.Assoc("[", p, "]");
    ArraySteps(open);
    RunOne(At(open, Front), '[', p + "]");
    RunItems(items, inner);
    RunCat(At(inner, Front), p, "]");
    RunOne(At(inner, if items.NoItem? then Front else Behind), ']', "");
  }

  lemma ItemSteps(open: seq<char>)
    requires Inner(open) == '['
    ensures Next(At(open, Behind), ',') == At(open, Comma) && Next(At(open, Comma), ' ') == At(open, Front)
  {
  }

  lemma RunNothing(s: State)
    ensures Run(s, "") == s
  {
  }

  lemma {:induction false} RunItems(items: Items, open: seq<char>)
    requires Inner(open) == '['
    ensures Run(At(open, Front), PrintItems(items, |open| - 1, true))
      == At(open, if items.NoItem? then Front else Behind)
    decreases items, 1
  {
    hide Run, Next, Print;
    if items.NoItem? {
      RunNothing(At(open, Front));
    } else {
      var s, p := At(open, Front), Print(items.head, |open|, true);
      RunValue(items.head, open);
      if items.next.NoItem? {
        assert p + "" == p;
      } else {
        var q := PrintItems(items.next, |open| - 1, true);
        ItemSteps(open);
        Seqs.Assoc(p, ", ", q);
        RunCat(s, p, ", " + q);
        assert ", " + q == "," + (" " + q);
        RunOne(At(open, Behind), ',', " " + q);
        RunOne(At(open, Comma), ' ', q);
        RunItems(items.next, open);
      }
    }
  }

  lemma ObjectSteps(open: seq<char>, first: bool)
    ensures var i := open + ['{'];
      && Inner(i) == '{' && |i| == |open| + 1
      && Next(At(open, Front), '{') == At(i, Brace) && Next(At(i, Brace), '\n') == At(i, Margin(0, true))
      && Next(At(i, Margin(Indent(i, first), first)), '}') == At(open, Behind)
  {
    assert (open + ['{'])[..|open|] == open;
  }

  lemma {:induction false} RunObject(members: Members, open: seq<char>)
    ensures Run(At(open, Front), Print(Object(members), |open|, true)) == At(open, Behind)
    decreases members, 3
  {
    hide Run, Next, PrintMembers, Tabs, Print;
    var inner, first := open + ['{'], members.NoMember?;
    var n := if first then |open| - 1 else |open|;
    var close := Tabs(n) + "}";
    var p := if first then "" else PrintMembers(members, |open| + 1, true);
    ObjectShape(members, |open|);
    ObjectSteps(open, first);
    RunOne(At(open, Front), '{', "\n" + (p + close));
    RunOne(At(inner, Brace), '\n', p + close);
    if first {
      assert p + close == close;
    } else {
      RunMembers(members, inner, true);
      RunCat(At(inner, Margin(0, true)), p, close);
    }
    RunTabs(inner, 0, first, n);
    RunCat(At(inner, Margin(0, first)), Tabs(n), "}");
    RunOne(At(inner, Margin(if n > 0 then n else 0, first)), '}', "");
  }

  lemma ObjectShape(members: Members, depth: nat)
    ensures Print(Object(members), depth, true)
         == "{" + ("\n" + ((if members.NoMember? then "" else PrintMembers(members, depth + 1, true))
                           + (Tabs(if members.NoMember? then depth - 1 else depth) + "}")))
  {
    if members.NoMember? {
      var t := Tabs(depth - 1);
      assert "{" + ("\n" + t) + "}" == "{" + ("\n" + ("" + (t + "}")));
    } else {
      var p, t := PrintMembers(members, depth + 1, true), Tabs(depth);
      Seqs.Assoc("{" + "\n" + p, t, "}");
      Seqs.Assoc("{" + "\n", p, t + "}");
      Seqs.Assoc("{", "\n", p + (t + "}"));
      hide *;
    }
  }

  /** Members lead from the beginning of a line to the beginning of the line of the closing brace. */
  lemma {:induction false} RunMembers(members: Members, open: seq<char>, first: bool)
    requires Inner(open) == '{' && members.Member?
    ensures Run(At(open, Margin(0, first)), PrintMembers(members, |open|, true)) == At(open, Margin(0, false))
    decreases members, 1
  {
    hide Run, Next, Quote, Print, Tabs;
    var Member(key, value, after) := members;
    var q := PrintMembers(after, |open|, true);
    var end := (if after.NoMember? then "" else ",") + ("\n" + q);
    var t, k, v := Tabs(|open|), Quote(key), Print(value, |open|, true);
    var m := At(open, Margin(|open|, first));
    MemberShape(members, |open|);
    MemberSteps(open, first);
    RunTabs(open, 0, first, |open|);
    RunCat(At(open, Margin(0, first)), t, k + (":\t" + (v + end)));
    RunQuote(m, open, key);
    RunCat(m, k, ":\t" + (v + end));
    assert ":\t" + (v + end) == ":" + ("\t" + (v + end));
    RunOne(At(open, Behind), ':', "\t" + (v + end));
    RunOne(At(open, Colon), '\t', v + end);
    RunValue(value, open);
    RunCat(At(open, Front), v, end);
    RunEnd(after, open);
  }

  lemma MemberSteps(open: seq<char>, first: bool)
    requires Inner(open) == '{'
    ensures Next(At(open, Margin(|open|, first)), '\"') == At(open, Within(false))
    ensures Next(At(open, Behind), ':') == At(open, Colon) && Next(At(open, Colon), '\t') == At(open, Front)
  {
  }

  lemma EndSteps(open: seq<char>)
    requires Inner(open) == '{'
    ensures Next(At(open, Behind), '\n') == At(open, Margin(0, false)) == Next(At(open, Comma), '\n')
    ensures Next(At(open, Behind), ',') == At(open, Comma)
  {
  }

  /** What stands behind the value of a member. */
  lemma {:induction false} RunEnd(after: Members, open: seq<char>)
    requires Inner(open) == '{'
    ensures Run(At(open, Behind), (if after.NoMember? then "" else ",") + ("\n" + PrintMembers(after, |open|, true)))
         == At(open, Margin(0, false))
    decreases after, 2
  {
    hide Run, Next;
    var q := PrintMembers(after, |open|, true);
    EndSteps(open);
    if after.NoMember? {
      assert "" + ("\n" + q) == "\n" + "";
      RunOne(At(open, Behind), '\n', "");
      RunNothing(At(open, Margin(0, false)));
    } else {
      RunOne(At(open, Behind), ',', "\n" + q);
      RunOne(At(open, Comma), '\n', q);
      RunMembers(after, open, false);
    }
  }

  lemma MemberShape(m: Members, depth: nat)
    requires m.Member?
    ensures PrintMembers(m, depth, true) == Tabs(depth) + (Quote(m.key) + (":\t" + (Print(m.value, depth, true)
      + ((if m.after.NoMember? then "" else ",") + ("\n" + PrintMembers(m.after, depth, true))))))
  {
    var t, k, v := Tabs(depth), Quote(m.key), Print(m.value, depth, true);
    var c, q := if m.after.NoMember? then "" else ",", PrintMembers(m.after, depth, true);
    Seqs.Assoc(t + k + ":\t" + v + c, "\n", q);
    Seqs.Assoc(t + k + ":\t" + v, c, "\n" + q);
    Seqs.Assoc(t + k + ":\t", v, c + ("\n" + q));
    Seqs.Assoc(t + k, ":\t", v + (c + ("\n" + q)));
    Seqs.Assoc(t, k, ":\t" + (v + (c + ("\n" + q))));
    hide Tabs, Quote, Print;
  }

  /**
   The formatted text of every tree: each member on a line of its own, behind a tab for every open bracket; a tab behind
   every colon, a space behind the commas of arrays; no control character in a string.
   */
  lemma FormattedLayout(v: Json)
    ensures Run(At([], Front), Print(v, 0, true)) == At([], Behind)
  {
    RunValue(v, []);
  }
}
