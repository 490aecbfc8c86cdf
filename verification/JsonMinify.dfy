/** `cJSON_Minify`: drop whitespace and comments outside string literals, in place. */
module JsonMinify {
  import Seqs
  import opened CText
  import opened JsonText

  predicate IsBlank(c: char) {
    c == ' ' || c == '\t' || c == '\r' || c == '\n'
  }

  /** Behind `//`: the text from the end of the line on. */
  function SkipLine(s: string): (r: string)
    ensures |r| <= |s|
  {
    if s == "" || s[0] == '\n' then s else SkipLine(s[1..])
  }

  /** A block comment whose text is `s` ends before the terminator. */
  predicate BlockEnds(s: string) {
    s != "" && ("*/" <= s || BlockEnds(s[1..]))
  }

  function SkipBlock(s: string): (r: string)
    requires BlockEnds(s)
    ensures |r| < |s|
  {
    if "*/" <= s then s[2..] else SkipBlock(s[1..])
  }

  /** A string literal whose text behind the opening quote is `s` ends before the terminator. */
  predicate LiteralEnds(s: string) {
    s != "" && (s[0] == '\"' || (if s[0] == '\\' then |s| > 1 && LiteralEnds(s[2..]) else LiteralEnds(s[1..])))
  }

  /** How many characters of `s` belong to that literal, its closing quote included. */
  function LiteralLength(s: string): (n: nat)
    requires LiteralEnds(s)
    ensures 0 < n <= |s|
  {
    if s[0] == '\"' then 1 else if s[0] == '\\' then 2 + LiteralLength(s[2..]) else 1 + LiteralLength(s[1..])
  }

  /** Every literal and block comment of `s` ends before the terminator. */
  predicate Closed(s: string)
    decreases |s|
  {
    if s == "" then true
    else if s[0] == '/' && Second(s) == '/' then Closed(SkipLine(s))
    else if s[0] == '/' && Second(s) == '*' then BlockEnds(s) && Closed(SkipBlock(s))
    else if s[0] == '\"' then LiteralEnds(s[1..]) && Closed(s[1 + LiteralLength(s[1..])..])
    else Closed(s[1..])
  }

  function Minified(s: string): string
    requires Closed(s)
    decreases |s|
  {
    if s == "" then ""
    else if IsBlank(s[0]) then Minified(s[1..])
    else if s[0] == '/' && Second(s) == '/' then Minified(SkipLine(s))
    else if s[0] == '/' && Second(s) == '*' then Minified(SkipBlock(s))
    else if s[0] == '\"' then
      var n := 1 + LiteralLength(s[1..]);
      s[..n] + Minified(s[n..])
    else [s[0]] + Minified(s[1..])
  }

  // ----- in place -----

  /** What remains to be written when the literal whose text is `s` has been opened. */
  ghost function FromLiteral(s: string): string
    requires LiteralEnds(s) && Closed(s[LiteralLength(s)..])
  {
    s[..LiteralLength(s)] + Minified(s[LiteralLength(s)..])
  }

  lemma OpenLiteral(s: string)
    requires s != "" && s[0] == '\"' && Closed(s)
    ensures Minified(s) == [s[0]] + FromLiteral(s[1..])
  {
    var n := LiteralLength(s[1..]);
    assert s[1 + n..] == s[1..][n..];
    Opened(s, n, Minified(s[1 + n..]));
  }

  lemma Opened(s: string, n: nat, rest: string)
    requires n < |s|
    ensures s[..1 + n] + rest == [s[0]] + (s[1..][..n] + rest)
  {
    assert s[..1 + n] == [s[0]] + s[1..][..n];
    Seqs.Assoc([s[0]], s[1..][..n], rest);
  }

  lemma LiteralSteps(s: string, k: nat)
    requires LiteralEnds(s) && Closed(s[LiteralLength(s)..])
    requires k <= |s| && LiteralEnds(s[k..]) && LiteralLength(s) == k + LiteralLength(s[k..])
    ensures Closed(s[k..][LiteralLength(s[k..])..]) && FromLiteral(s) == s[..k] + FromLiteral(s[k..])
  {
    hide LiteralEnds, LiteralLength, Closed, Minified;
    var n := LiteralLength(s);
    assert s[n..] == s[k..][n - k..];
    assert s[..n] == s[..k] + s[k..][..n - k];
    Seqs.Assoc(s[..k], s[k..][..n - k], Minified(s[n..]));
  }

  lemma LastInLiteral(s: string)
    requires LiteralEnds(s) && Closed(s[LiteralLength(s)..]) && s[0] == '\"'
    ensures Closed(s[1..]) && FromLiteral(s) == [s[0]] + Minified(s[1..])
  {
    assert s[..1] == [s[0]];
  }

  /** `*into++ = *json++` with the write index not past the read index. */
  method CopyChar(json: array<char>, j: nat, k: nat)
    requires k <= j < json.Length
    modifies json
    ensures json[..k + 1] == old(json[..k]) + [old(json[j])]
    ensures json[j + 1..] == old(json[j + 1..])
  {
    json[k] := json[j];
  }

  /** What is written and what is to be read make up `want`. */
  ghost predicate Going(json: seq<char>, orig: seq<char>, j: nat, k: nat, want: string) {
    && k <= j < |json| == |orig| && HasCStr(orig, j) && json[j..] == orig[j..]
    && Closed(CStr(orig, j)) && json[..k] + Minified(CStr(orig, j)) == want
  }

  /** One case of `Minified` applies. */
  lemma Cases(s: string)
    requires s != "" && Closed(s)
    ensures
      if IsBlank(s[0]) then Closed(s[1..]) && Minified(s) == Minified(s[1..])
      else if s[0] == '/' && Second(s) == '/' then Closed(SkipLine(s)) && Minified(s) == Minified(SkipLine(s))
      else if s[0] == '/' && Second(s) == '*' then
        BlockEnds(s) && Closed(SkipBlock(s)) && Minified(s) == Minified(SkipBlock(s))
      else if s[0] == '\"' then
        && LiteralEnds(s[1..]) && Closed(s[1..][LiteralLength(s[1..])..])
        && Minified(s) == [s[0]] + FromLiteral(s[1..])
      else Closed(s[1..]) && Minified(s) == [s[0]] + Minified(s[1..])
  {
    if !IsBlank(s[0]) && s[0] == '\"' {
      assert s[1 + LiteralLength(s[1..])..] == s[1..][LiteralLength(s[1..])..];
      OpenLiteral(s);
    }
  }

  /** One turn of the outer loop. */
  method MinifyTurn(json: array<char>, j0: nat, k0: nat, ghost orig: seq<char>, ghost want: string)
    returns (j: nat, k: nat)
    requires Going(json[..], orig, j0, k0, want) && json[j0] != '\0'
    modifies json
    ensures Going(json[..], orig, j, k, want) && j0 < j
  {
    hide HasCStr, CStr, Closed, Minified, FromLiteral, SkipLine, SkipBlock, LiteralLength, LiteralEnds, BlockEnds,
      Second;
    SameTail(json[..], orig, j0);
    Cases(CStr(orig, j0));
    j, k := j0 + 1, k0;
    if json[j0] == ' ' || json[j0] == '\t' || json[j0] == '\r' || json[j0] == '\n' {
    } else if json[j0] == '/' && json[j0 + 1] == '/' {
      j := LineEnd(json[..], j0, orig);
    } else if json[j0] == '/' && json[j0 + 1] == '*' {
      j := BlockEnd(json[..], j0, orig);
    } else if json[j0] == '\"' {
      Seqs.Assoc(json[..k], [json[j0]], FromLiteral(CStr(orig, j)));
      CopyChar(json, j0, k);
      j, k := CopyLiteral(json, j, k + 1, orig, want);
    } else {
      Seqs.Assoc(json[..k], [json[j0]], Minified(CStr(orig, j)));
      CopyChar(json, j0, k);
      k := k + 1;
    }
  }

  /**
   `cJSON_Minify`: the write index `k` never passes the read index `j`, so what is
   still to be read is untouched.
   */
  method Minify(json: array<char>)
    requires HasCStr(json[..], 0) && Closed(CStr(json[..], 0))
    modifies json
    ensures HasCStr(json[..], 0)
    ensures CStr(json[..], 0) == Minified(old(CStr(json[..], 0)))
  {
    hide HasCStr, CStr, Closed, Minified;
    ghost var orig := json[..];
    ghost var want := Minified(CStr(orig, 0));
    var j: nat, k: nat := 0, 0;
    CStrEnds(orig, 0);
    assert "" + want == want;
    while json[j] != '\0'
      invariant Going(json[..], orig, j, k, want)
      decreases json.Length - j
    {
      j, k := MinifyTurn(json, j, k, orig, want);
    }
    SameTail(json[..], orig, j);
    NothingLeft();
    MinifiedNulFree(orig, 0);
    assert json[..k] + "" == json[..k];
    json[k] := '\0';
    CStrIs(json[..], 0, want);
  }

  lemma NothingLeft()
    ensures Minified("") == ""
  {
  }

  /** Reading at `j` reads the original text. */
  lemma SameTail(json: seq<char>, orig: seq<char>, j: nat)
    requires j < |json| == |orig| && json[j..] == orig[j..] && HasCStr(orig, j)
    ensures json[j] == orig[j] && (json[j] == '\0' <==> CStr(orig, j) == "")
    ensures json[j] != '\0' ==>
      && HasCStr(orig, j + 1) && j + 1 < |orig| && json[j + 1] == orig[j + 1] && json[j + 1..] == orig[j + 1..]
      && CStr(orig, j) == [json[j]] + CStr(orig, j + 1) && CStr(orig, j)[1..] == CStr(orig, j + 1)
      && Second(CStr(orig, j)) == json[j + 1]
  {
    assert json[j..][0] == orig[j..][0];
    CStrEnds(orig, j);
    CStrEnds(orig, j + 1);
    if json[j] != '\0' {
      assert json[j..][1] == orig[j..][1];
      assert json[j + 1..] == json[j..][1..] == orig[j..][1..] == orig[j + 1..];
    }
  }

  lemma MinifiedNulFree(b: seq<char>, i: nat)
    requires HasCStr(b, i) && Closed(CStr(b, i))
    ensures NulFree(Minified(CStr(b, i)))
  {
    CStrSpec(b, i);
    MinifiedKeeps(CStr(b, i));
  }

  lemma {:induction false} MinifiedKeeps(s: string)
    requires Closed(s) && NulFree(s)
    ensures NulFree(Minified(s))
    decreases |s|
  {
    if s == "" {
    } else if IsBlank(s[0]) {
      MinifiedKeeps(s[1..]);
    } else if s[0] == '/' && Second(s) == '/' {
      SkipLineSuffix(s);
      MinifiedKeeps(SkipLine(s));
    } else if s[0] == '/' && Second(s) == '*' {
      SkipBlockSuffix(s);
      MinifiedKeeps(SkipBlock(s));
    } else if s[0] == '\"' {
      MinifiedKeeps(s[1 + LiteralLength(s[1..])..]);
    } else {
      MinifiedKeeps(s[1..]);
    }
  }

  lemma SkipLineSuffix(s: string)
    ensures SkipLine(s) == s[|s| - |SkipLine(s)|..]
  {
  }

  lemma SkipBlockSuffix(s: string)
    requires BlockEnds(s)
    ensures SkipBlock(s) == s[|s| - |SkipBlock(s)|..]
  {
  }

  /** `while (*json && *json != '\n') json++;` */
  method LineEnd(json: seq<char>, start: nat, ghost orig: seq<char>) returns (j: nat)
    requires start < |json| == |orig| && HasCStr(orig, start) && json[start..] == orig[start..]
    requires json[start] == '/'
    ensures start < j < |json| && HasCStr(orig, j) && json[j..] == orig[j..]
    ensures CStr(orig, j) == SkipLine(CStr(orig, start))
  {
    j := start;
    SameTail(json, orig, j);
    while json[j] != '\0' && json[j] != '\n'
      invariant start <= j < |json| && HasCStr(orig, j) && json[j..] == orig[j..]
      invariant SkipLine(CStr(orig, j)) == SkipLine(CStr(orig, start))
      invariant j == start ==> json[j] == '/'
      decreases |json| - j
    {
      SameTail(json, orig, j);
      j := j + 1;
    }
    SameTail(json, orig, j);
  }

  lemma StarSlash(s: string)
    ensures "*/" <= s <==> Head(s) == '*' && Second(s) == '/'
  {
    if Head(s) == '*' && Second(s) == '/' {
      assert s[..2] == "*/";
    }
  }

  /** `while (*json && !(*json == '*' && json[1] == '/')) json++; json += 2;` */
  method BlockEnd(json: seq<char>, start: nat, ghost orig: seq<char>) returns (j: nat)
    requires start < |json| == |orig| && HasCStr(orig, start) && json[start..] == orig[start..]
    requires BlockEnds(CStr(orig, start))
    ensures start < j < |json| && HasCStr(orig, j) && json[j..] == orig[j..]
    ensures CStr(orig, j) == SkipBlock(CStr(orig, start))
  {
    j := start;
    SameTail(json, orig, j);
    while json[j] != '\0' && !(json[j] == '*' && json[j + 1] == '/')
      invariant start <= j < |json| - 1 && HasCStr(orig, j) && json[j..] == orig[j..]
      invariant BlockEnds(CStr(orig, j)) && SkipBlock(CStr(orig, j)) == SkipBlock(CStr(orig, start))
      decreases |json| - j
    {
      SameTail(json, orig, j);
      SameTail(json, orig, j + 1);
      StarSlash(CStr(orig, j));
      j := j + 1;
    }
    SameTail(json, orig, j);
    SameTail(json, orig, j + 1);
    StarSlash(CStr(orig, j));
    j := j + 2;
  }

  /** One turn of the copying loop: a character, or a backslash and the character behind it. */
  method CopyEscaped(json: array<char>, j0: nat, k0: nat) returns (j: nat, k: nat)
    requires k0 <= j0 < json.Length && json[j0] != '\0' && (json[j0] == '\\' ==> j0 + 1 < json.Length)
    modifies json
    ensures j == j0 + (if old(json[j0]) == '\\' then 2 else 1) && k == k0 + j - j0
    ensures json[..k] == old(json[..k0]) + old(json[j0..j0 + (if json[j0] == '\\' then 2 else 1)])
    ensures json[j..] == old(json[j0..])[j - j0..]
  {
    j, k := j0, k0;
    ghost var before := json[..];
    if json[j] == '\\' {
      CopyChar(json, j, k);
      assert json[j + 1..] == before[j + 1..];
      j, k := j + 1, k + 1;
      assert json[j] == json[j..][0] == before[j..][0];
    }
    assert json[j..] == before[j..];
    CopyChar(json, j, k);
    j, k := j + 1, k + 1;
    assert json[j..] == before[j..] == before[j0..][j - j0..];
  }

  /** Inside a literal: what is written and what is to be read make up `want`. */
  ghost predicate Copying(json: seq<char>, orig: seq<char>, j: nat, k: nat, want: string) {
    && k <= j < |json| == |orig| && HasCStr(orig, j) && json[j..] == orig[j..]
    && LiteralEnds(CStr(orig, j)) && Closed(CStr(orig, j)[LiteralLength(CStr(orig, j))..])
    && json[..k] + FromLiteral(CStr(orig, j)) == want
  }

  method CopyTurn(json: array<char>, j0: nat, k0: nat, ghost orig: seq<char>, ghost want: string)
    returns (j: nat, k: nat)
    requires Copying(json[..], orig, j0, k0, want) && json[j0] != '\0' && json[j0] != '\"'
    modifies json
    ensures Copying(json[..], orig, j, k, want) && j0 < j
  {
    ghost var n := if json[j0] == '\\' then 2 else 1;
    ghost var s := CStr(orig, j0);
    SameTail(json[..], orig, j0);
    InLiteral(json[..], orig, j0, n);
    LiteralSteps(s, n);
    Seqs.Assoc(json[..k0], s[..n], FromLiteral(s[n..]));
    j, k := CopyEscaped(json, j0, k0);
  }

  /** The loop that copies a string literal up to and with its closing quote. */
  method CopyLiteral(json: array<char>, j0: nat, k0: nat, ghost orig: seq<char>, ghost want: string)
    returns (j: nat, k: nat)
    requires Copying(json[..], orig, j0, k0, want)
    modifies json
    ensures j0 < j && k <= j < json.Length && HasCStr(orig, j) && json[j..] == orig[j..]
    ensures Closed(CStr(orig, j)) && json[..k] + Minified(CStr(orig, j)) == want
  {
    j, k := j0, k0;
    while json[j] != '\0' && json[j] != '\"'
      invariant Copying(json[..], orig, j, k, want) && j0 <= j
      decreases json.Length - j
    {
      j, k := CopyTurn(json, j, k, orig, want);
    }
    SameTail(json[..], orig, j);
    LastInLiteral(CStr(orig, j));
    Seqs.Assoc(json[..k], [json[j]], Minified(CStr(orig, j + 1)));
    CopyChar(json, j, k);
    j, k := j + 1, k + 1;
  }

  lemma InLiteral(json: seq<char>, orig: seq<char>, j: nat, n: nat)
    requires j < |json| == |orig| && json[j..] == orig[j..] && HasCStr(orig, j)
    requires var s := CStr(orig, j); LiteralEnds(s) && s[0] != '\"' && n == (if json[j] == '\\' then 2 else 1)
    ensures var s := CStr(orig, j);
      && j + n < |json| && HasCStr(orig, j + n) && json[j + n..] == orig[j + n..]
      && CStr(orig, j + n) == s[n..] && s[..n] == json[j..j + n] && json[j..][n..] == orig[j + n..]
      && LiteralEnds(s[n..]) && LiteralLength(s) == n + LiteralLength(s[n..])
  {
    SameTail(json, orig, j);
    if n == 2 {
      SameTail(json, orig, j + 1);
      assert CStr(orig, j) == [json[j], json[j + 1]] + CStr(orig, j + 2);
    }
  }

  // ----- minifying printed text -----

  predicate Plain(c: char) {
    !IsBlank(c) && c != '/' && c != '\"'
  }

  lemma {:induction false} PlainCopied(a: string, post: string)
    requires forall i :: 0 <= i < |a| ==> Plain(a[i])
    requires Closed(post)
    ensures Closed(a + post) && Minified(a + post) == a + Minified(post)
  {
    if a == "" {
      assert a + post == post;
      assert "" + Minified(post) == Minified(post);
    } else {
      assert (a + post)[1..] == a[1..] + post;
      PlainCopied(a[1..], post);
      assert [a[0]] + (a[1..] + Minified(post)) == a + Minified(post);
    }
  }

  lemma {:induction false} BlanksDropped(a: string, post: string)
    requires forall i :: 0 <= i < |a| ==> IsBlank(a[i])
    requires Closed(post)
    ensures Closed(a + post) && Minified(a + post) == Minified(post)
  {
    if a == "" {
      assert a + post == post;
    } else {
      assert (a + post)[1..] == a[1..] + post;
      BlanksDropped(a[1..], post);
    }
  }

  lemma {:induction false} EscapedLiteral(s: string, post: string)
    ensures LiteralEnds(EscapeAll(s) + "\"" + post)
    ensures LiteralLength(EscapeAll(s) + "\"" + post) == |EscapeAll(s)| + 1
  {
    var t := EscapeAll(s) + "\"" + post;
    if s != "" {
      var e := Escape(s[0]);
      var tail := EscapeAll(s[1..]) + "\"" + post;
      EscapedLiteral(s[1..], post);
      assert t == e + tail;
      if |e| == 1 {
        assert t[1..] == tail;
      } else if |e| == 2 {
        assert t[2..] == tail;
      } else {
        ControlLiteral(s[0], tail);
      }
    }
  }

  lemma ControlLiteral(c: char, tail: string)
    requires c < ' ' && LiteralEnds(tail)
    ensures var t := "\\" + ControlEscape(c) + tail;
      LiteralEnds(t) && LiteralLength(t) == 6 + LiteralLength(tail)
  {
    var t := "\\" + ControlEscape(c) + tail;
    var u := t[2..];
    assert u[0] == '0' && u[1] == '0' && u[2] == HexDigit(c as int / 16) && u[3] == HexDigit(c as int % 16);
    assert u[1..][1..][1..][1..] == tail;
    assert LiteralEnds(u[1..][1..][1..]) && LiteralLength(u[1..][1..][1..]) == 1 + LiteralLength(tail);
    assert LiteralEnds(u[1..][1..]) && LiteralLength(u[1..][1..]) == 2 + LiteralLength(tail);
    assert LiteralEnds(u[1..]) && LiteralLength(u[1..]) == 3 + LiteralLength(tail);
  }

  lemma QuoteCopied(s: string, post: string)
    requires Closed(post)
    ensures Closed(Quote(s) + post) && Minified(Quote(s) + post) == Quote(s) + Minified(post)
  {
    hide LiteralEnds, LiteralLength, EscapeAll;
    var t := Quote(s) + post;
    EscapedLiteral(s, post);
    assert t[1..] == EscapeAll(s) + "\"" + post;
    var n := 1 + LiteralLength(t[1..]);
    assert n == |Quote(s)|;
    assert t[..n] == Quote(s) && t[n..] == post;
  }

  lemma {:induction false} DigitsPlain(n: nat)
    ensures forall i :: 0 <= i < |Digits(n)| ==> Plain(Digits(n)[i])
  {
    if n >= 10 {
      DigitsPlain(n / 10);
    }
  }

  lemma {:induction false} TabsBlank(n: int)
    ensures forall i :: 0 <= i < |Tabs(n)| ==> IsBlank(Tabs(n)[i])
    decreases n
  {
    if n > 0 {
      TabsBlank(n - 1);
    }
  }

  /** Minifying formatted text gives the unformatted text, whatever stands behind it. */
  lemma {:induction false} ValueMinified(v: Json, depth: nat, post: string)
    requires Closed(post)
    ensures var text := Print(v, depth, true) + post;
      Closed(text) && Minified(text) == Print(v, 0, false) + Minified(post)
    decreases v, 1
  {
    match v
    case Null => PlainCopied("null", post);
    case False => PlainCopied("false", post);
    case True => PlainCopied("true", post);
    case Number(d) =>
      DigitsPlain(if d.Floor < 0 then -d.Floor else d.Floor);
      PlainCopied(ShowInt(d.Floor), post);
    case String(s) => QuoteCopied(s, post);
    case Array(items) =>
      PlainCopied("]", post);
      ItemsMinified(items, depth, "]" + post);
      PlainCopied("[", PrintItems(items, depth, true) + ("]" + post));
      Regroup3("[", PrintItems(items, depth, true), "]", post);
      Regroup3("[", PrintItems(items, 0, false), "]", Minified(post));
    case Object(members) => ObjectMinified(members, depth, post);
  }

  lemma Regroup3(a: string, b: string, c: string, post: string)
    ensures (a + b + c) + post == a + (b + (c + post))
  {
  }

  lemma {:induction false} ItemsMinified(items: Items, depth: nat, post: string)
    requires Closed(post)
    ensures var text := PrintItems(items, depth, true) + post;
      Closed(text) && Minified(text) == PrintItems(items, 0, false) + Minified(post)
    decreases items
  {
    hide Closed, Minified, Print;
    if items.NoItem? {
      assert "" + post == post;
      assert "" + Minified(post) == Minified(post);
    } else {
      var head, next := items.head, items.next;
      if next.NoItem? {
        ValueMinified(head, depth + 1, post);
        PrintDepth(head, 1);
        assert PrintItems(items, depth, true) == Print(head, depth + 1, true);
        assert PrintItems(items, 0, false) == Print(head, 1, false);
      } else {
        var tail := PrintItems(next, depth, true) + post;
        ItemsMinified(next, depth, post);
        BlanksDropped(" ", tail);
        PlainCopied(",", " " + tail);
        assert "," + (" " + tail) == Comma(true) + tail;
        ValueMinified(head, depth + 1, Comma(true) + tail);
        PrintDepth(head, 1);
        Regroup3(Print(head, depth + 1, true), Comma(true), PrintItems(next, depth, true), post);
        Regroup3(Print(head, 0, false), Comma(false), PrintItems(next, 0, false), Minified(post));
        Seqs.Assoc(Print(head, depth + 1, true), Comma(true), PrintItems(next, depth, true));
        Seqs.Assoc(Print(head, 1, false), Comma(false), PrintItems(next, 0, false));
      }
    }
  }

  lemma ObjectShape(members: Members, depth: nat)
    ensures Print(Object(members), depth, true)
         == "{" + "\n" + PrintMembers(members, depth + 1, true) + Tabs(if members.NoMember? then depth - 1 else depth)
           + "}"
    ensures Print(Object(members), 0, false) == "{" + PrintMembers(members, 1, false) + "}"
  {
    if members.NoMember? {
      EmptyShape(Tabs(depth - 1));
    } else {
      FilledShape(PrintMembers(members, 1, false));
    }
  }

  lemma EmptyShape(tabs: string)
    ensures "{" + ("\n" + tabs) + "}" == "{" + "\n" + "" + tabs + "}"
  {
  }

  lemma FilledShape(p: string)
    ensures "{" + "" + p + "" + "}" == "{" + p + "}"
  {
  }

  lemma {:induction false} ObjectMinified(members: Members, depth: nat, post: string)
    requires Closed(post)
    ensures var text := Print(Object(members), depth, true) + post;
      Closed(text) && Minified(text) == Print(Object(members), 0, false) + Minified(post)
    decreases members, 1
  {
    hide Closed, Minified, Print, PrintMembers, Tabs;
    var n: int := if members.NoMember? then depth - 1 else depth;
    var p := PrintMembers(members, depth + 1, true);
    var close := Tabs(n) + ("}" + post);
    PlainCopied("}", post);
    TabsBlank(n);
    BlanksDropped(Tabs(n), "}" + post);
    MembersMinified(members, depth + 1, close);
    BlanksDropped("\n", p + close);
    PlainCopied("{", "\n" + (p + close));
    ObjectShape(members, depth);
    Regroup3("{" + "\n" + p, Tabs(n), "}", post);
    Regroup3("{", "\n", p, close);
    MembersDepth(members, 1);
    Regroup3("{", PrintMembers(members, 0, false), "}", Minified(post));
  }

  lemma MembersShape(members: Members, depth: nat, post: string, after: string)
    requires members.Member?
    ensures var m := if members.after.NoMember? then "" else ",";
      && PrintMembers(members, depth, true) + post == Tabs(depth) + (Quote(members.key) + (":" + ("\t"
           + (Print(members.value, depth, true) + (m + ("\n" + (PrintMembers(members.after, depth, true) + post)))))))
      && PrintMembers(members, 0, false) + after == Quote(members.key) + (":"
           + (Print(members.value, 0, false) + (m + (PrintMembers(members.after, 0, false) + after))))
  {
    var q, m := Quote(members.key), if members.after.NoMember? then "" else ",";
    var v, p := Print(members.value, depth, true), PrintMembers(members.after, depth, true);
    Regroup7(Tabs(depth), q, ":\t", v, m, "\n", p, post);
    Seqs.Assoc(":", "\t", v + (m + ("\n" + (p + post))));
    assert ":" + "\t" == ":\t";
    var v0, p0 := Print(members.value, 0, false), PrintMembers(members.after, 0, false);
    Regroup7("", q, ":", v0, m, "", p0, after);
    Empty(q + (":" + (v0 + (m + ("" + (p0 + after))))));
    Empty(p0 + after);
  }

  lemma {:induction false} MembersMinified(members: Members, depth: nat, post: string)
    requires Closed(post)
    ensures var text := PrintMembers(members, depth, true) + post;
      Closed(text) && Minified(text) == PrintMembers(members, 0, false) + Minified(post)
    decreases members, 0
  {
    hide Closed, Minified, Print, Quote, Tabs, ShowInt;
    if members.NoMember? {
      Empty(post);
      Empty(Minified(post));
    } else {
      var Member(key, value, after) := members;
      var m := if after.NoMember? then "" else ",";
      MembersShape(members, depth, post, Minified(post));
      MembersMinified(after, depth, post);
      var t1 := PrintMembers(after, depth, true) + post;
      BlanksDropped("\n", t1);
      PlainCopied(m, "\n" + t1);
      var t2 := m + ("\n" + t1);
      ValueMinified(value, depth, t2);
      var t3 := Print(value, depth, true) + t2;
      BlanksDropped("\t", t3);
      PlainCopied(":", "\t" + t3);
      QuoteCopied(key, ":" + ("\t" + t3));
      TabsBlank(depth);
      BlanksDropped(Tabs(depth), Quote(key) + (":" + ("\t" + t3)));
    }
  }

  lemma Empty(a: string)
    ensures "" + a == a
  {
  }

  lemma Regroup7(a: string, b: string, c: string, d: string, e: string, f: string, g: string, post: string)
    ensures (a + b + c + d + e + f + g) + post == a + (b + (c + (d + (e + (f + (g + post))))))
  {
    Regroup3(a + b + c + d, e + f, g, post);
    Regroup3(a + b, c, d, (e + f) + (g + post));
    assert a + b + c + d + (e + f) + g == a + b + c + d + e + f + g;
    assert (e + f) + (g + post) == e + (f + (g + post));
    assert (a + b) + (c + (d + (e + (f + (g + post))))) == a + (b + (c + (d + (e + (f + (g + post))))));
  }

  /** Unformatted text does not depend on the depth. */
  lemma {:induction false} PrintDepth(v: Json, depth: nat)
    ensures Print(v, depth, false) == Print(v, 0, false)
    decreases v
  {
    match v
    case Array(items) => ItemsDepth(items, depth);
    case Object(members) =>
      MembersDepth(members, depth + 1);
      MembersDepth(members, 1);
    case _ =>
  }

  lemma {:induction false} ItemsDepth(items: Items, depth: nat)
    ensures PrintItems(items, depth, false) == PrintItems(items, 0, false)
    decreases items
  {
    if items.Item? {
      PrintDepth(items.head, depth + 1);
      PrintDepth(items.head, 1);
      ItemsDepth(items.next, depth);
    }
  }

  lemma {:induction false} MembersDepth(members: Members, depth: nat)
    ensures PrintMembers(members, depth, false) == PrintMembers(members, 0, false)
    decreases members
  {
    if members.Member? {
      PrintDepth(members.value, depth);
      MembersDepth(members.after, depth);
    }
  }

  /** `cJSON_Minify` applied to `cJSON_Print(v)` gives `cJSON_PrintUnformatted(v)`. */
  lemma MinifyPrint(v: Json)
    ensures Closed(Print(v, 0, true)) && Minified(Print(v, 0, true)) == Print(v, 0, false)
  {
    ValueMinified(v, 0, "");
    assert Print(v, 0, true) + "" == Print(v, 0, true);
    assert Print(v, 0, false) + "" == Print(v, 0, false);
  }
}
