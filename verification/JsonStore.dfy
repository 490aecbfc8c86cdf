/** Writing text into character buffers, as both cJSON printers do. */
module JsonStore {
  import Seqs
  import opened CText
  import opened JsonText

  /** `b` holds the C string `s` at `at`. */
  ghost predicate Holds(b: seq<char>, at: nat, s: string) {
    at + |s| < |b| && b[at..at + |s|] == s && b[at + |s|] == '\0' && NulFree(s)
  }

  lemma HoldsCStr(b: seq<char>, at: nat, s: string)
    requires Holds(b, at, s)
    ensures HasCStr(b, at) && CStr(b, at) == s
  {
    CStrIs(b, at, s);
  }

  /** `*ptr++ = s[0]; *ptr++ = s[1]; ...` */
  method Put(b: array<char>, at: nat, s: string) returns (k: nat)
    requires at + |s| <= b.Length
    modifies b
    ensures k == at + |s| && b[..k] == old(b[..at]) + s && b[k..] == old(b[at + |s|..])
  {
    k := at;
    for i := 0 to |s|
      invariant k == at + i && b[..k] == old(b[..at]) + s[..i]
      invariant forall j :: k <= j < b.Length ==> b[j] == old(b[j])
    {
      b[k] := s[i];
      k := k + 1;
    }
  }

  /** `for (i = 0; i < n; i++) *ptr++ = '\t';` */
  method PutTabs(b: array<char>, at: nat, n: int) returns (k: nat)
    requires at + |Tabs(n)| <= b.Length
    modifies b
    ensures k == at + |Tabs(n)| && b[..k] == old(b[..at]) + Tabs(n)
  {
    k := at;
    var i := 0;
    TabsAre(n);
    while i < n
      invariant 0 <= i && (n >= 0 ==> i <= n) && (n < 0 ==> i == 0) && k == at + i <= b.Length
      invariant forall j :: 0 <= j < at ==> b[j] == old(b[j])
      invariant forall j :: at <= j < k ==> b[j] == '\t'
    {
      b[k] := '\t';
      k, i := k + 1, i + 1;
    }
  }

  lemma {:induction false} TabsAre(n: int)
    ensures |Tabs(n)| == (if n < 0 then 0 else n) && forall i :: 0 <= i < |Tabs(n)| ==> Tabs(n)[i] == '\t'
    decreases n
  {
    if n > 0 {
      TabsAre(n - 1);
    }
  }

  /** `memcpy(b + at, src, n)` */
  method Copy(b: array<char>, at: nat, src: array<char>, n: nat) returns (k: nat)
    requires at + n <= b.Length && n <= src.Length && src != b
    modifies b
    ensures k == at + n && b[..k] == old(b[..at]) + src[..n]
  {
    for i := 0 to n
      invariant forall j :: 0 <= j < at ==> b[j] == old(b[j])
      invariant forall j :: 0 <= j < i ==> b[at + j] == src[j]
    {
      b[at + i] := src[i];
    }
    k := at + n;
  }

  lemma HoldsAt(b: seq<char>, at: nat, s: string, i: nat)
    requires Holds(b, at, s) && i <= |s|
    ensures b[at + i] == Head(s[i..]) && (b[at + i] == '\0' <==> i == |s|)
  {
    if i < |s| {
      assert b[at..at + |s|][i] == b[at + i];
    }
  }

  method Strlen(b: array<char>, at: nat, ghost s: string) returns (n: nat)
    requires Holds(b[..], at, s)
    ensures n == |s|
  {
    n := 0;
    HoldsAt(b[..], at, s, 0);
    while b[at + n] != '\0'
      invariant n <= |s| && (b[at + n] == '\0' <==> n == |s|)
      decreases |s| - n
    {
      n := n + 1;
      HoldsAt(b[..], at, s, n);
    }
  }

  // ----- quoted strings -----

  predicate NeedsEscape(c: char) {
    c < ' ' || c == '\"' || c == '\\'
  }

  lemma {:induction false} PlainIsItself(s: string)
    requires forall i :: 0 <= i < |s| ==> !NeedsEscape(s[i])
    ensures EscapeAll(s) == s
  {
    if s != "" {
      PlainIsItself(s[1..]);
      assert [s[0]] + s[1..] == s;
    }
  }

  lemma {:induction false} EscapeSnoc(s: string, c: char)
    ensures EscapeAll(s + [c]) == EscapeAll(s) + Escape(c)
  {
    if s == "" {
      assert (s + [c])[1..] == "";
    } else {
      assert (s + [c])[1..] == s[1..] + [c];
      EscapeSnoc(s[1..], c);
    }
  }

  lemma EscapePrefix(s: string, i: nat)
    requires i < |s|
    ensures EscapeAll(s[..i + 1]) == EscapeAll(s[..i]) + Escape(s[i])
  {
    EscapeSnoc(s[..i], s[i]);
    assert s[..i] + [s[i]] == s[..i + 1];
  }

  lemma {:induction false} EscapePrefixFits(s: string, i: nat)
    requires i <= |s|
    ensures |EscapeAll(s[..i])| <= |EscapeAll(s)|
    decreases |s| - i
  {
    if i == |s| {
      assert s[..i] == s;
    } else {
      EscapePrefix(s, i);
      EscapePrefixFits(s, i + 1);
    }
  }

  /** Whether a character must be escaped, and the length of the escaped string. */
  method Measure(str: string) returns (flag: bool, len: nat)
    requires NulFree(str)
    ensures len == |EscapeAll(str)| && (!flag ==> EscapeAll(str) == str)
  {
    flag := false;
    for i := 0 to |str|
      invariant !flag ==> forall j :: 0 <= j < i ==> !NeedsEscape(str[j])
    {
      if str[i] < ' ' || str[i] == '\"' || str[i] == '\\' {
        flag := true;
      }
    }
    if !flag {
      PlainIsItself(str);
      return false, |str|;
    }
    len := 0;
    for i := 0 to |str|
      invariant len == |EscapeAll(str[..i])|
    {
      EscapePrefix(str, i);
      var token := str[i];
      len := len + 1;
      if token == '\"' || token == '\\' || token == 8 as char || token == 12 as char
         || token == '\n' || token == '\r' || token == '\t' {
        len := len + 1;
      } else if token < ' ' {
        len := len + 5;
      }
    }
    assert str[..|str|] == str;
  }

  /** One character of `print_string_ptr`: itself, or a backslash and its escape. */
  method PutEscape(b: array<char>, at: nat, c: char) returns (k: nat)
    requires at + |Escape(c)| <= b.Length
    modifies b
    ensures k == at + |Escape(c)| && b[..k] == old(b[..at]) + Escape(c)
  {
    if c >= ' ' && c != '\"' && c != '\\' {
      k := Put(b, at, [c]);
    } else {
      k := Put(b, at, "\\");
      var e :=
        if c == '\\' then "\\"
        else if c == '\"' then "\""
        else if c == 8 as char then "b"
        else if c == 12 as char then "f"
        else if c == '\n' then "n"
        else if c == '\r' then "r"
        else if c == '\t' then "t"
        else ControlEscape(c);
      assert Escape(c) == "\\" + e;
      k := Put(b, k, e);
    }
  }

  /** The loop of `print_string_ptr` that writes `str` between the quotes. */
  method PutEscaped(b: array<char>, at: nat, str: string) returns (k: nat)
    requires at + |EscapeAll(str)| <= b.Length
    modifies b
    ensures k == at + |EscapeAll(str)| && b[..k] == old(b[..at]) + EscapeAll(str)
  {
    k := at;
    for i := 0 to |str|
      invariant k == at + |EscapeAll(str[..i])| <= b.Length && b[..k] == old(b[..at]) + EscapeAll(str[..i])
    {
      EscapePrefix(str, i);
      EscapePrefixFits(str, i + 1);
      ghost var done := EscapeAll(str[..i]);
      k := PutEscape(b, k, str[i]);
      Seqs.Assoc(old(b[..at]), done, Escape(str[i]));
    }
    assert str[..|str|] == str;
  }

  /** `*ptr = 0;` behind a string put at `at`. */
  method Terminate(b: array<char>, at: nat, k: nat, ghost s: string)
    requires at + |s| == k < b.Length && b[at..k] == s && NulFree(s)
    modifies b
    ensures b[..k] == old(b[..k]) && Holds(b[..], at, s)
  {
    b[k] := '\0';
    assert b[..][at..k] == b[at..k];
  }

  /** `print_string_ptr` into a buffer with room for `len + 3` characters at `at`. */
  method PutQuoted(b: array<char>, at: nat, str: string, flag: bool, len: nat)
    requires NulFree(str) && len == |EscapeAll(str)| && (!flag ==> EscapeAll(str) == str)
    requires at + len + 3 <= b.Length
    modifies b
    ensures b[..at] == old(b[..at]) && Holds(b[..], at, Quote(str))
  {
    var k := Put(b, at, "\"");
    if flag {
      k := PutEscaped(b, k, str);
    } else {
      k := Put(b, k, str);
    }
    k := Put(b, k, "\"");
    Seqs.Assoc4(old(b[..at]), "\"", EscapeAll(str), "\"");
    EscapedNulFree(str);
    assert b[at..k] == b[..k][at..] == Quote(str);
    assert b[..at] == b[..k][..at];
    Terminate(b, at, k, Quote(str));
    assert b[..at] == b[..k][..at];
  }

  lemma {:induction false} EscapedNulFree(s: string)
    requires NulFree(s)
    ensures NulFree(EscapeAll(s)) && NulFree(Quote(s))
  {
    if s != "" {
      EscapedNulFree(s[1..]);
    }
  }
}
