/**
 The encoder of ezXML: what it writes for markup and control characters is read
 back by the decoder.
 */
module XmlEncode {
  import opened CText
  import opened XmlEntities
  import opened XmlDecode
  import opened XmlText

  function EncodeChar(c: char, a: bool): (e: string)
    ensures e != ""
  {
    if c == '&' then "&amp;"
    else if c == '<' then "&lt;"
    else if c == '>' then "&gt;"
    else if c == '\"' && a then "&quot;"
    else if c == '\n' && a then "&#xA;"
    else if c == '\t' && a then "&#x9;"
    else if c == '\r' then "&#xD;"
    else [c]
  }

  /** `ezxml_ampencode` for a text or, with `a`, for the value of an attribute. */
  function Encode(s: string, a: bool): string {
    if s == "" then "" else EncodeChar(s[0], a) + Encode(s[1..], a)
  }

  /** What no encoded text contains. */
  predicate Clean(e: string, a: bool) {
    forall i :: 0 <= i < |e| ==> e[i] != '<' && e[i] != '>' && e[i] != '\r' && e[i] != '\0' && (a ==> e[i] != '\"')
  }

  lemma {:induction false} EncodeClean(s: string, a: bool)
    requires NulFree(s)
    ensures Clean(Encode(s, a), a)
  {
    if s != "" {
      EncodeClean(s[1..], a);
      CharClean(s[0], a);
    }
  }

  lemma CharClean(c: char, a: bool)
    requires c != '\0'
    ensures Clean(EncodeChar(c, a), a)
  {
  }

  /** White space that attribute normalisation cannot tell from a space. */
  predicate IsFeed(c: char) {
    c == 11 as char || c == 12 as char
  }

  /** What the decoder makes of an encoded character. */
  function Back(c: char, a: bool): char {
    if a && IsFeed(c) then ' ' else c
  }

  function Mode(a: bool): char {
    if a then ' ' else '&'
  }

  // ----- the references that the encoder writes -----

  lemma {:induction false} MatchMore(p: string, ents: seq<Entity>, more: seq<Entity>)
    requires Match(p, ents) < |ents|
    ensures Match(p, ents + more) == Match(p, ents)
  {
    assert (ents + more)[1..] == ents[1..] + more;
    if !(ents[0].name <= p) {
      MatchMore(p, ents[1..], more);
    }
  }

  /** No two of the names begin with the same two characters. */
  lemma NamesDiffer(i: nat, b: nat)
    requires i < b < |DEFAULTS|
    ensures var m, n := DEFAULTS[i].name, DEFAULTS[b].name; |m| >= 2 && |n| >= 2 && (m[0] != n[0] || m[1] != n[1])
  {
    var lt, gt, quot, apos, amp := "lt;", "gt;", "quot;", "apos;", "amp;";
    assert lt[0] == 'l' && gt[0] == 'g' && quot[0] == 'q' && apos[..2] == ['a', 'p'] && amp[..2] == ['a', 'm'];
    assert apos[1] == 'p' && amp[1] == 'm' && apos[0] == amp[0] == 'a';
    assert DEFAULTS[0].name == lt && DEFAULTS[1].name == gt && DEFAULTS[2].name == quot;
    assert DEFAULTS[3].name == apos && DEFAULTS[4].name == amp;
  }

  lemma OnePrefix(p: string, m: string, n: string)
    requires |m| >= 2 && |n| >= 2 && n <= p && (m[0] != n[0] || m[1] != n[1])
    ensures !(m <= p)
  {
    assert p[0] == n[0] && p[1] == n[1];
  }

  /** The first entity of which the name starts `p` is the one matched. */
  lemma DefaultOnly(p: string, b: nat)
    requires b < |DEFAULTS| && DEFAULTS[b].name <= p && forall i :: 0 <= i < b ==> !(DEFAULTS[i].name <= p)
    ensures Match(p, DEFAULTS) == b
  {
    MatchFirst(p, DEFAULTS, b);
  }

  lemma {:induction false} MatchFirst(p: string, ents: seq<Entity>, b: nat)
    requires b < |ents| && ents[b].name <= p && forall i :: 0 <= i < b ==> !(ents[i].name <= p)
    ensures Match(p, ents) == b
    decreases b
  {
    if b > 0 {
      assert !(ents[0].name <= p);
      MatchFirst(p, ents[1..], b - 1);
    }
  }

  lemma DefaultMatch(p: string, ents: seq<Entity>, b: nat)
    requires DEFAULTS <= ents && b < |DEFAULTS| && DEFAULTS[b].name <= p
    ensures Match(p, ents) == b && ents[b] == DEFAULTS[b]
  {
    forall i | 0 <= i < b
      ensures !(DEFAULTS[i].name <= p)
    {
      NamesDiffer(i, b);
      var m, n := DEFAULTS[i].name, DEFAULTS[b].name;
      OnePrefix(p, m, n);
    }
    DefaultOnly(p, b);
    assert ents == DEFAULTS + ents[|DEFAULTS|..];
    MatchMore(p, DEFAULTS, ents[|DEFAULTS|..]);
  }

  lemma RefDefault(p: string, ents: seq<Entity>, b: nat)
    requires DEFAULTS <= ents && b < |DEFAULTS| && p == "&" + DEFAULTS[b].name
    ensures RefAt(p, ents) == EntRef(b) && ents[b] == DEFAULTS[b] && OneSemi(p)
  {
    assert p[1..] == DEFAULTS[b].name;
    DefaultMatch(p[1..], ents, b);
    assert p[1] != '#';
    assert OneSemi(DEFAULTS[b].name);
  }

  /** A text that is one reference. */
  lemma ExpandRef(p: string, ents: seq<Entity>, rank: seq<nat>, n: nat, b: nat, t: char)
    requires |rank| == |ents| && b < |ents| && rank[b] < n && t != 'c' && p != "" && p[0] == '&'
    requires RefAt(p, ents) == EntRef(b) && ';' in p && Behind(p) == ""
    ensures Expand(p, ents, rank, n, t).text == Expand(ents[b].value, ents, rank, rank[b], t).text
  {
    var v := Expand(ents[b].value, ents, rank, rank[b], t);
    ExpandStep(p, ents, rank, n, t);
    assert Expand("", ents, rank, n, t) == Expansion("", 0);
    assert "" + v.text + "" == v.text;
  }

  /** A reference to one of the predefined entities stands for its character. */
  lemma ExpandDefault(p: string, ents: seq<Entity>, rank: seq<nat>, n: nat, b: nat, c: char, t: char)
    requires DEFAULTS <= ents && |rank| == |ents| && b < |DEFAULTS| && rank[b] < n && t != 'c'
    requires p == "&" + DEFAULTS[b].name
    requires CharRefAt(DEFAULTS[b].value) == CharRef(c as nat) && 0 < c as nat < 0x80
    ensures Expand(p, ents, rank, n, t).text == [c]
  {
    RefDefault(p, ents, b);
    BehindLast(p);
    ExpandRef(p, ents, rank, n, b, t);
    ValueShape(b);
    ExpandChar(DEFAULTS[b].value, ents, rank, rank[b], c, t);
  }

  lemma ValueShape(b: nat)
    requires b < |DEFAULTS|
    ensures OneSemi(DEFAULTS[b].value) && "&#" <= DEFAULTS[b].value
  {
  }

  lemma {:induction false} BehindLast(p: string)
    requires OneSemi(p)
    ensures ';' in p && Behind(p) == ""
  {
    if |p| > 1 {
      assert forall i :: 0 <= i < |p[1..]| - 1 ==> p[1..][i] == p[i + 1];
      BehindLast(p[1..]);
    }
  }

  /** A character reference stands for its character. */
  lemma ExpandChar(p: string, ents: seq<Entity>, rank: seq<nat>, n: nat, c: char, t: char)
    requires |rank| == |ents| && t != 'c' && "&#" <= p && OneSemi(p)
    requires CharRefAt(p) == CharRef(c as nat) && 0 < c as nat < 0x80
    ensures Expand(p, ents, rank, n, t).text == [c]
  {
    BehindLast(p);
    ExpandStep(p, ents, rank, n, t);
  }

  /** A reference of two decimal digits. */
  lemma DecimalRef(p: string)
    requires |p| == 5 && "&#" <= p && IsDigit(p[2]) && IsDigit(p[3]) && p[4] == ';'
    requires DigitOf(p[2]) > 0
    ensures CharRefAt(p) == CharRef(DigitOf(p[2]) * 10 + DigitOf(p[3])) && OneSemi(p)
  {
    var q := p[2..];
    assert Lead(q, 10) == 0 && q[0..] == q && q[1..][1..] == ";";
    var d, e := DigitOf(q[0]), DigitOf(q[1]);
    assert Strtol(0, q, 10) == Strtol(d, q[1..], 10) == Strtol(d * 10 + e, ";", 10) == Numeral(d * 10 + e, ";");
    assert p[0] == '&' && p[1] == '#';
  }

  /** A reference of one hexadecimal digit. */
  lemma HexRef(p: string)
    requires |p| == 5 && "&#x" <= p && IsDigitIn(p[3], 16) && p[4] == ';'
    requires DigitIn(p[3], 16) > 0
    ensures "&#" <= p && CharRefAt(p) == CharRef(DigitIn(p[3], 16)) && OneSemi(p)
  {
    assert p[0] == '&' && p[1] == '#' && p[2] == 'x';
    var q := p[3..];
    assert Lead(q, 16) == 0 && q[0..] == q && q[1..] == ";";
    assert Strtol(0, q, 16) == Strtol(DigitIn(q[0], 16), ";", 16) == Numeral(DigitIn(q[0], 16), ";");
  }

  lemma Numbers()
    ensures CharRefAt("&#60;") == CharRef('<' as nat) && CharRefAt("&#62;") == CharRef('>' as nat)
    ensures CharRefAt("&#34;") == CharRef('\"' as nat) && CharRefAt("&#38;") == CharRef('&' as nat)
  {
    hide CharRefAt, OneSemi;
    DecimalRef("&#60;");
    DecimalRef("&#62;");
    DecimalRef("&#34;");
    DecimalRef("&#38;");
  }

  lemma HexNumbers()
    ensures CharRefAt("&#xA;") == CharRef('\n' as nat) && CharRefAt("&#x9;") == CharRef('\t' as nat)
    ensures CharRefAt("&#xD;") == CharRef('\r' as nat)
    ensures OneSemi("&#xA;") && OneSemi("&#x9;") && OneSemi("&#xD;")
  {
    hide CharRefAt, OneSemi;
    HexRef("&#xA;");
    HexRef("&#x9;");
    HexRef("&#xD;");
  }

  // ----- decoding undoes encoding -----

  /** The entities of a document and their ranks, all below `n`. */
  ghost predicate Bounded(ents: seq<Entity>, rank: seq<nat>, n: nat) {
    DEFAULTS <= ents && Usable(ents, rank) && Below(rank, n)
  }

  lemma EncodeCharComplete(c: char, a: bool)
    ensures Complete(EncodeChar(c, a))
  {
    var e := EncodeChar(c, a);
    if |e| > 1 {
      assert e[|e| - 1] == ';';
      forall k | 0 <= k < |e| && e[k] == '&'
        ensures ';' in e[k + 1..]
      {
        assert k == 0;
        assert e[1..][|e| - 2] == ';';
      }
    }
  }

  lemma BackDefault(c: char, a: bool, b: nat, ents: seq<Entity>, rank: seq<nat>, n: nat)
    requires Bounded(ents, rank, n) && b < |DEFAULTS| && EncodeChar(c, a) == "&" + DEFAULTS[b].name
    requires CharRefAt(DEFAULTS[b].value) == CharRef(c as nat) && 0 < c as nat < 0x80
    ensures Expand(EncodeChar(c, a), ents, rank, n, Mode(a)).text == [c]
  {
    ExpandDefault(EncodeChar(c, a), ents, rank, n, b, c, Mode(a));
  }

  lemma DefaultFor(c: char, a: bool) returns (b: nat)
    requires c == '<' || c == '>' || c == '&' || (c == '\"' && a)
    ensures b < |DEFAULTS| && EncodeChar(c, a) == "&" + DEFAULTS[b].name
    ensures CharRefAt(DEFAULTS[b].value) == CharRef(c as nat) && 0 < c as nat < 0x80
  {
    hide CharRefAt;
    Numbers();
    b := if c == '<' then 0 else if c == '>' then 1 else if c == '&' then 4 else 2;
  }

  lemma BackCode(c: char, a: bool, ents: seq<Entity>, rank: seq<nat>, n: nat)
    requires Bounded(ents, rank, n) && (c == '\r' || (a && (c == '\n' || c == '\t')))
    ensures Expand(EncodeChar(c, a), ents, rank, n, Mode(a)).text == [c]
  {
    hide CharRefAt, OneSemi, Bounded, Expand;
    HexNumbers();
    BoundedRank(ents, rank, n);
    assert EncodeChar(c, a) == if c == '\r' then "&#xD;" else if c == '\n' then "&#xA;" else "&#x9;";
    ExpandChar(EncodeChar(c, a), ents, rank, n, c, Mode(a));
  }

  lemma BoundedRank(ents: seq<Entity>, rank: seq<nat>, n: nat)
    requires Bounded(ents, rank, n)
    ensures |rank| == |ents|
  {
  }

  lemma BackPlain(c: char, a: bool, ents: seq<Entity>, rank: seq<nat>, n: nat)
    requires |rank| == |ents| && EncodeChar(c, a) == [c] && c != '&' && (a ==> c != '\n' && c != '\t' && c != '\r')
    ensures Expand(EncodeChar(c, a), ents, rank, n, Mode(a)).text == [Back(c, a)]
  {
    var e := [c];
    ExpandStep(e, ents, rank, n, Mode(a));
    assert e[1..] == "";
    assert Expand("", ents, rank, n, Mode(a)).text == "";
  }

  /** One character written and read back. */
  lemma BackChar(c: char, a: bool, ents: seq<Entity>, rank: seq<nat>, n: nat)
    requires Bounded(ents, rank, n)
    ensures Expand(EncodeChar(c, a), ents, rank, n, Mode(a)).text == [Back(c, a)]
  {
    if c == '<' || c == '>' || c == '&' || (c == '\"' && a) {
      var b := DefaultFor(c, a);
      BackDefault(c, a, b, ents, rank, n);
    } else if c == '\r' || (a && (c == '\n' || c == '\t')) {
      BackCode(c, a, ents, rank, n);
    } else {
      BackPlain(c, a, ents, rank, n);
    }
  }

  function Backs(s: string, a: bool): (r: string)
    ensures |r| == |s| && forall i :: 0 <= i < |s| ==> r[i] == Back(s[i], a)
  {
    if s == "" then "" else [Back(s[0], a)] + Backs(s[1..], a)
  }

  lemma {:induction false} DecodeEncodeIs(s: string, a: bool, ents: seq<Entity>, rank: seq<nat>, n: nat)
    requires Bounded(ents, rank, n)
    ensures Expand(Encode(s, a), ents, rank, n, Mode(a)).text == Backs(s, a)
  {
    if s != "" {
      EncodeCharComplete(s[0], a);
      BackChar(s[0], a, ents, rank, n);
      ExpandCat(EncodeChar(s[0], a), Encode(s[1..], a), ents, rank, n, Mode(a));
      DecodeEncodeIs(s[1..], a, ents, rank, n);
    }
  }

  /** Text written by `ezxml_ampencode` and read back by `ezxml_decode` is the same text. */
  lemma DecodeEncodeText(s: string, ents: seq<Entity>, rank: seq<nat>, n: nat)
    requires Bounded(ents, rank, n)
    ensures Expand(Encode(s, false), ents, rank, n, '&').text == s
  {
    DecodeEncodeIs(s, false, ents, rank, n);
    assert Backs(s, false) == s;
  }

  lemma BacksSame(s: string)
    ensures Backs(s, true) == s <==> forall i :: 0 <= i < |s| ==> !IsFeed(s[i])
  {
    var r := Backs(s, true);
    assert forall i :: 0 <= i < |s| ==> (r[i] == s[i] <==> !IsFeed(s[i]));
  }

  /** The value of an attribute comes back exactly if it has no vertical tab and no form feed. */
  lemma DecodeEncodeValue(s: string, ents: seq<Entity>, rank: seq<nat>, n: nat)
    requires Bounded(ents, rank, n)
    ensures Expand(Encode(s, true), ents, rank, n, ' ').text == s <==> forall i :: 0 <= i < |s| ==> !IsFeed(s[i])
  {
    DecodeEncodeIs(s, true, ents, rank, n);
    BacksSame(s);
  }

  lemma {:induction false} NormalSame(p: string)
    requires forall i :: 0 <= i < |p| ==> p[i] != '\r'
    ensures Normal(p) == p && !EndsInReturn(p)
  {
    if p != "" {
      NormalSame(p[1..]);
    }
  }

  /** The whole decoder on the output of the encoder, in the mode that belongs to it. */
  lemma DecodeUndoesEncode(s: string, a: bool, x: Context)
    requires Ready(x) && DEFAULTS <= x.ents && x.t == Mode(a) && NulFree(s)
    ensures !EndsInReturn(Encode(s, a))
    ensures Expanded(Normal(Encode(s, a)), x).text == s <==> (a ==> forall i :: 0 <= i < |s| ==> !IsFeed(s[i]))
  {
    EncodeClean(s, a);
    NormalSame(Encode(s, a));
    if a {
      DecodeEncodeValue(s, x.ents, x.rank, x.n);
    } else {
      DecodeEncodeText(s, x.ents, x.rank, x.n);
    }
  }

  // ----- ezxml_ampencode -----

  const BUFSIZE: nat := 1024

  /** `while (*dlen + 10 > *max) *dst = realloc(*dst, *max += EZXML_BUFSIZE);` */
  method Reserve(dst: array<char>, dlen: nat) returns (r: array<char>)
    requires dlen <= dst.Length
    ensures dlen + 10 <= r.Length && r[..dlen] == dst[..dlen] && (r == dst || fresh(r)) && r.Length >= dst.Length
  {
    var max := dst.Length;
    while dlen + 10 > max {
      max := max + BUFSIZE;
    }
    r := dst;
    if max > dst.Length {
      r := new char[max];
      forall i | 0 <= i < dlen {
        r[i] := dst[i];
      }
    }
  }

  /** The text in front of the first terminator. */
  function UpToNul(s: string): (r: string)
    ensures NulFree(r) && (NulFree(s) ==> r == s)
  {
    if s == "" || s[0] == '\0' then "" else [s[0]] + UpToNul(s[1..])
  }

  /** One character: `sprintf` writes a terminator behind the reference. */
  method AppendChar(dst: array<char>, dlen: nat, c: char, a: bool) returns (dlen': nat)
    requires dlen + 10 <= dst.Length
    modifies dst
    ensures dlen' + 4 <= dst.Length && dst[..dlen'] == old(dst[..dlen]) + EncodeChar(c, a)
  {
    var e := EncodeChar(c, a);
    ghost var b := dst[..dlen];
    CharShort(c, a);
    Write(dst, dlen, e);
    dlen' := dlen + |e|;
    assert dst[..dlen'] == b + e;
    if e != [c] {
      dst[dlen'] := '\0';
    }
    assert dst[..dlen'] == b + e;
  }

  lemma CharShort(c: char, a: bool)
    ensures |EncodeChar(c, a)| <= 6
  {
  }

  method AmpTurn(r0: array<char>, n0: nat, c: char, a: bool, ghost w: string) returns (r: array<char>, n: nat)
    requires n0 <= r0.Length && r0[..n0] == w
    modifies r0
    ensures n + 4 <= r.Length && r[..n] == w + EncodeChar(c, a) && (r == r0 || fresh(r)) && r.Length >= r0.Length
  {
    r := Reserve(r0, n0);
    n := AppendChar(r, n0, c, a);
  }

  lemma UpToNulStep(s: string, i: nat)
    requires i <= |s|
    ensures UpToNul(s[i..]) == if i == |s| || s[i] == '\0' then "" else [s[i]] + UpToNul(s[i + 1..])
  {
    if i < |s| {
      assert s[i..][1..] == s[i + 1..];
    }
  }

  lemma EncodeStep(w: string, c: char, q: string, a: bool)
    ensures w + Encode([c] + q, a) == w + EncodeChar(c, a) + Encode(q, a)
  {
    assert ([c] + q)[1..] == q;
  }

  lemma EncodeEnd(w: string, a: bool)
    ensures w + Encode("", a) == w
  {
  }

  /** `ezxml_ampencode` appends the encoded text to a buffer that grows. */
  method AmpEncode(s: string, dst: array<char>, dlen: nat, a: bool) returns (r: array<char>, n: nat)
    requires dlen <= dst.Length
    modifies dst
    ensures n <= r.Length && r[..n] == old(dst[..dlen]) + Encode(UpToNul(s), a) && (r == dst || fresh(r))
    ensures n + 4 <= r.Length || (n == dlen && r == dst)
  {
    hide *;
    r, n := dst, dlen;
    var i: nat := 0;
    ghost var w := dst[..dlen];
    ghost var goal := w + Encode(UpToNul(s), a);
    assert s[0..] == s;
    while i < |s| && s[i] != '\0'
      invariant i <= |s| && n <= r.Length && (r == dst || fresh(r)) && (n + 4 <= r.Length || (n == dlen && r == dst))
      invariant r[..n] == w && w + Encode(UpToNul(s[i..]), a) == goal
    {
      UpToNulStep(s, i);
      EncodeStep(w, s[i], UpToNul(s[i + 1..]), a);
      r, n := AmpTurn(r, n, s[i], a, w);
      w := r[..n];
      i := i + 1;
    }
    UpToNulStep(s, i);
    EncodeEnd(w, a);
    if i < |s| {
      r := Reserve(r, n);
    }
  }
}
