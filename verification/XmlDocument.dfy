/**
 Whole documents: the entities a document type declares are those the decoder
 can replace, a tree of tags is written and read again, and a text may come in
 UTF-16.
 */
module XmlDocument {
  import opened CText
  import opened XmlEntities
  import opened XmlDecode
  import opened XmlText
  import opened XmlTree
  import opened XmlWriter
  import opened XmlParser
  import opened XmlTags
  import XmlIndex
  import XmlRoundTrip
  import Utf16

  /** The name ends in its only semicolon, and the value consists of literals and complete references. */
  predicate Declarable(e: Entity) {
    OneSemi(e.name) && NulFree(e.name) && Complete(e.value) && NulFree(e.value)
  }

  lemma DefaultsDeclarable()
    ensures forall i :: 0 <= i < |DEFAULTS| ==> Declarable(DEFAULTS[i])
  {
    hide Declarable;
    Short("lt;", "&#60;");
    Short("gt;", "&#62;");
    Short("quot;", "&#34;");
    Short("apos;", "&#39;");
    Short("amp;", "&#38;");
    Five(Entity("lt;", "&#60;"), Entity("gt;", "&#62;"), Entity("quot;", "&#34;"), Entity("apos;", "&#39;"),
      Entity("amp;", "&#38;"));
  }

  lemma Five(a: Entity, b: Entity, c: Entity, d: Entity, e: Entity)
    requires Declarable(a) && Declarable(b) && Declarable(c) && Declarable(d) && Declarable(e)
    ensures forall i :: 0 <= i < |[a, b, c, d, e]| ==> Declarable([a, b, c, d, e][i])
  {
    hide Declarable;
  }

  lemma Short(n: string, v: string)
    requires 3 <= |n| <= 5 && n[|n| - 1] == ';' && forall i :: 0 <= i < |n| - 1 ==> n[i] != ';' && n[i] != '\0'
    requires |v| == 5 && v[0] == '&' && v[1] == '#' && IsDigit(v[2]) && IsDigit(v[3]) && v[4] == ';'
    ensures Declarable(Entity(n, v))
  {
    ShortReference(v);
  }

  lemma ShortReference(v: string)
    requires |v| == 5 && v[0] == '&' && v[1] == '#' && IsDigit(v[2]) && IsDigit(v[3]) && v[4] == ';'
    ensures Complete(v) && NulFree(v)
  {
    assert v[1..][3] == ';';
  }

  /** The context the decoder works in. */
  ghost function ContextOf(d: Doctype, t: char): Context
    reads d
  {
    Context(d.ents, d.rank, d.bound, t)
  }

  /** Whatever was declared, the replacement of entities ends. */
  lemma DeclaredReady(d: Doctype, t: char)
    requires d.Valid() && forall i :: 0 <= i < |d.ents| ==> Declarable(d.ents[i])
    ensures Ready(ContextOf(d, t))
  {
    hide OneSemi, Complete, Ranked;
  }

  /**
   The declarations of a document up to the first circular one, and then one of its texts: whatever the declarations,
   decoding ends, and gives the text with every reference replaced recursively.
   */
  method DecodeDeclared(decls: seq<Entity>, m: array<char>, from: nat, t: char, ghost p: string)
    returns (n: nat, r: array<char>, base: nat, ghost x: Context)
    requires forall i :: 0 <= i < |decls| ==> Declarable(decls[i])
    requires Text(m[..], from, p) && !EndsInReturn(p)
    modifies m
    ensures n <= |decls| && (forall i :: 0 <= i < n ==> Fine(DEFAULTS, decls, i))
      && (n < |decls| ==> !Fine(DEFAULTS, decls, n))
    ensures Ready(x) && x.ents == DEFAULTS + decls[..n] && x.t == t
    ensures Text(r[..], base, Expanded(Normal(p), x).text)
  {
    hide *;
    var d := new Doctype();
    n := d.DeclareAll(decls);
    DefaultsDeclarable();
    AllDeclarable(decls, n);
    DeclaredReady(d, t);
    x := Context(d.ents, d.rank, d.bound, t);
    ContextIs(d, t);
    r, base := Decode(m, from, d.ents, t, p, x);
  }

  lemma ContextIs(d: Doctype, t: char)
    ensures ContextOf(d, t) == Context(d.ents, d.rank, d.bound, t)
  {
  }

  lemma AllDeclarable(decls: seq<Entity>, n: nat)
    requires n <= |decls| && forall i :: 0 <= i < |decls| ==> Declarable(decls[i])
    ensures forall i :: 0 <= i < |DEFAULTS + decls[..n]| ==>
      Declarable((DEFAULTS + decls[..n])[i]) && NulFree((DEFAULTS + decls[..n])[i].name)
  {
    DefaultsDeclarable();
    hide OneSemi, Complete, NulFree;
  }

  // ----- written and read again -----

  lemma {:induction false} GoodCStrings(e: Elem)
    requires Good(e)
    ensures CStrings(e)
    decreases e, 1
  {
    GoodCStringsIn(e.kids, 0, |e.txt|);
  }

  lemma {:induction false} GoodCStringsIn(kids: Kids, from: nat, to: nat)
    requires GoodKids(kids, from, to)
    ensures CStringsIn(kids)
    decreases kids, 0
  {
    if kids.Kid? {
      GoodCStrings(kids.elem);
      GoodCStringsIn(kids.rest, kids.off, to);
    }
  }

  /** The parser has succeeded, and its tags show the tree. */
  ghost predicate Built(p: Parser, o: Outcome, e: Elem)
    reads p, p.all
  {
    o.Success? && p.root != null && p.closed <= p.all && Shows(p.root, e, p.closed)
  }

  lemma BuiltIs(p: Parser, o: Outcome, e: Elem, r: Parsed)
    requires Gives(p, o, r) && !r.Unmodelled?
    ensures Built(p, o, e) <==> r == Ok(e)
  {
    if Built(p, o, e) && r.Ok? {
      ShowsOne(p.root, e, r.root, p.closed, p.closed);
    }
  }

  /**
   Tags written and read again: new tags that show the same tree, exactly if no attribute value has a vertical tab or a
   form feed.
   */
  method Reread(root: XmlIndex.Tag, ghost e: Elem, ghost c: set<XmlIndex.Tag>, ghost all: set<XmlIndex.Tag>)
    returns (p: Parser, o: Outcome)
    requires Shows(root, e, c) && c <= all && Indexes(all) && Good(e)
    ensures fresh(p) && (Built(p, o, e) <==> XmlRoundTrip.NoFeeds(e))
  {
    hide *;
    GoodCStrings(e);
    XmlRoundTrip.RoundTrip(e);
    XmlRoundTrip.ParsePrint(e);
    var s, n := ToXml(root, e, c, all);
    p, o := ParseStr(s[..n]);
    BuiltIs(p, o, e, Parse(PrintElem(e)));
  }

  // ----- documents in UTF-16 -----

  predicate Marked(s: string) {
    s != "" && (s[0] == 0xFE as char || s[0] == 0xFF as char)
  }

  /** `ezxml_parse_str` of a text in UTF-8, or in UTF-16 behind its mark; nothing behind the mark is not modelled. */
  function ParseAny(s: string): Parsed {
    if !Marked(s) then Parse(s)
    else
      var u := Utf16.Convert(s, 2, s[0] == 0xFE as char);
      if u == "" then Unmodelled else Parse(u)
  }

  method ParseDocument(s: string) returns (p: Parser, o: Outcome)
    ensures fresh(p) && Gives(p, o, ParseAny(s))
  {
    hide Parse, Utf16.Convert, Gives;
    if s == "" {
      p, o := ParseStr(s);
    } else {
      var done, u, l := Utf16.Str2Utf8(s);
      if done && l == 0 {
        p := new Parser();
        o := OutsideOf(p);
      } else {
        p, o := ParseStr(if done then u[..l] else s);
      }
    }
  }

  lemma MarkIs(cs: seq<nat>, be: bool)
    ensures var s := Utf16.Utf16Text(cs, be); Marked(s) && (s[0] == 0xFE as char <==> be)
  {
  }

  /** A tree whose text is written in UTF-16, of either byte order, is read back under the same condition. */
  lemma RoundTripUtf16(e: Elem, cs: seq<nat>, be: bool)
    requires Good(e) && (forall i :: 0 <= i < |cs| ==> Utf16.IsScalar(cs[i])) && Utf16.Utf8Text(cs) == PrintElem(e)
    ensures ParseAny(Utf16.Utf16Text(cs, be)) == Ok(e) <==> XmlRoundTrip.NoFeeds(e)
  {
    hide Parse, Utf16.Convert, Utf16.Utf16Text, Utf16.Utf8Text, Good, XmlRoundTrip.NoFeeds;
    MarkIs(cs, be);
    Utf16.ConvertIsUtf8(cs, be);
    XmlRoundTrip.RoundTrip(e);
  }
}
