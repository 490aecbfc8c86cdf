/**
 Serialising an element tree and parsing it back gives the same tree.
 */
module XmlRoundTrip {
  import opened XmlAttr
  import Seqs
  import opened CText
  import opened XmlEntities
  import opened XmlDecode
  import opened XmlEncode
  import opened XmlText
  import opened XmlTree

  // ----- scanning -----

  lemma {:induction false} SpanCat(p: string, q: string, stop: char -> bool)
    requires (forall i :: 0 <= i < |p| ==> !stop(p[i])) && (q != "" ==> stop(q[0]))
    ensures Span(p + q, stop) == |p| && (p + q)[..|p|] == p && Past(p + q, stop) == q
  {
    if p == "" {
      assert p + q == q;
    } else {
      assert (p + q)[1..] == p[1..] + q;
      SpanCat(p[1..], q, stop);
    }
  }

  lemma {:induction false} SpanToCat(p: string, c: char, q: string)
    requires (forall i :: 0 <= i < |p| ==> p[i] != c) && (q != "" ==> q[0] == c)
    ensures SpanTo(p + q, c) == |p| && (p + q)[..|p|] == p && (p + q)[|p|..] == q
  {
    if p == "" {
      assert p + q == q;
    } else {
      assert (p + q)[1..] == p[1..] + q;
      SpanToCat(p[1..], c, q);
    }
  }

  // ----- text and values -----

  lemma DefaultsBounded()
    ensures Bounded(DEFAULTS, RANKS, 1)
  {
    DefaultsRanked();
    forall i | 0 <= i < |DEFAULTS|
      ensures OneSemi(DEFAULTS[i].name) && Complete(DEFAULTS[i].value)
    {
      var v := DEFAULTS[i].value;
      forall k | 0 <= k < |v| && v[k] == '&'
        ensures ';' in v[k + 1..]
      {
        assert k == 0 && v[1..][3] == ';';
      }
    }
  }

  lemma DecodedText(x: string)
    requires NulFree(x)
    ensures Decoded(Encode(x, false), '&') == x && !EndsInReturn(Encode(x, false))
  {
    DefaultsBounded();
    EncodeClean(x, false);
    NormalSame(Encode(x, false));
    DecodeEncodeText(x, DEFAULTS, RANKS, 1);
  }

  lemma DecodedValue(x: string)
    requires NulFree(x)
    ensures Decoded(Encode(x, true), ' ') == Backs(x, true) && !EndsInReturn(Encode(x, true))
  {
    DefaultsBounded();
    EncodeClean(x, true);
    NormalSame(Encode(x, true));
    DecodeEncodeIs(x, true, DEFAULTS, RANKS, 1);
  }

  // ----- attributes -----

  /** What comes back of an attribute: feeds in its value are spaces. */
  function KeptAttrs(attrs: seq<Attr>): (r: seq<Attr>)
    ensures |r| == |attrs|
    ensures forall i :: 0 <= i < |attrs| ==> r[i] == Attr(attrs[i].name, Backs(attrs[i].value, true))
  {
    if attrs == [] then [] else [Attr(attrs[0].name, Backs(attrs[0].value, true))] + KeptAttrs(attrs[1..])
  }

  lemma ReadQuotedIs(value: string, rest: string)
    requires NulFree(value)
    ensures ReadQuoted(Encode(value, true) + ("\"" + rest), '\"') == Value(Backs(value, true), rest)
  {
    EncodeClean(value, true);
    SpanToCat(Encode(value, true), '\"', "\"" + rest);
    Drop1(Encode(value, true), '\"', rest);
    DecodedValue(value);
  }

  lemma Drop1(p: string, c: char, q: string)
    ensures (p + ([c] + q))[|p| + 1..] == q
  {
  }

  lemma ReadValueFrom(w: string)
    ensures ReadValue("=\"" + w) == ReadQuoted(w, '\"')
  {
    assert ("=\"" + w)[1..] == "\"" + w;
    assert ("\"" + w)[1..] == w;
    assert Span("\"" + w, NoWsOrEquals) == 0;
  }

  lemma ReadValueIs(value: string, rest: string)
    requires NulFree(value)
    ensures ReadValue("=\"" + (Encode(value, true) + ("\"" + rest))) == Value(Backs(value, true), rest)
  {
    ReadValueFrom(Encode(value, true) + ("\"" + rest));
    ReadQuotedIs(value, rest);
  }

  /** Behind a tag name or a value: an attribute. */
  lemma ReadOne(name: string, value: string, rest: string)
    requires IsName(name) && NulFree(value)
    ensures ReadAttrs(name + ("=\"" + (Encode(value, true) + ("\"" + rest))))
         == More(Attr(name, Backs(value, true)), ReadAttrs(Past(rest, NoSpace)))
  {
    var q := "=\"" + (Encode(value, true) + ("\"" + rest));
    SpanCat(name, q, EndsAttrName);
    ReadValueIs(value, rest);
  }

  lemma Blank(name: string, q: string)
    requires IsName(name)
    ensures Past(" " + (name + q), NoSpace) == name + q
  {
    assert (name + q)[0] == name[0];
    SpanCat(" ", name + q, NoSpace);
  }

  lemma PrintAttrShape(a: Attr, rest: string)
    ensures PrintAttr(a) + rest == " " + (a.name + ("=\"" + (Encode(a.value, true) + ("\"" + rest))))
  {
    var n, v := a.name, Encode(a.value, true);
    calc {
      " " + n + "=\"" + v + "\"" + rest;
      { Seqs.Assoc(" " + n + "=\"" + v, "\"", rest); }
      " " + n + "=\"" + v + ("\"" + rest);
      { Seqs.Assoc(" " + n + "=\"", v, "\"" + rest); }
      " " + n + "=\"" + (v + ("\"" + rest));
      { Seqs.Assoc(" " + n, "=\"", v + ("\"" + rest)); }
      " " + n + ("=\"" + (v + ("\"" + rest)));
      { Seqs.Assoc(" ", n, "=\"" + (v + ("\"" + rest))); }
      " " + (n + ("=\"" + (v + ("\"" + rest))));
    }
  }

  /** No name stands twice, and none has been seen. */
  predicate Fresh(attrs: seq<Attr>, seen: set<string>) {
    GoodAttrs(attrs) && forall i :: 0 <= i < |attrs| ==> attrs[i].name !in seen
  }

  /** All attributes of a tag are read back. */
  lemma {:induction false} ReadAll(attrs: seq<Attr>, seen: set<string>, rest: string)
    requires Fresh(attrs, seen)
    ensures ReadAttrs(Past(PrintAttrs(attrs, seen) + (">" + rest), NoSpace)) == Attrs(KeptAttrs(attrs), ">" + rest)
  {
    if attrs == [] {
      assert "" + (">" + rest) == ">" + rest;
      SpanCat("", ">" + rest, NoSpace);
    } else {
      var a, seen' := attrs[0], seen + {attrs[0].name};
      var q := PrintAttrs(attrs[1..], seen') + (">" + rest);
      assert Fresh(attrs[1..], seen');
      ReadAll(attrs[1..], seen', rest);
      Seqs.Assoc(PrintAttr(a), PrintAttrs(attrs[1..], seen'), ">" + rest);
      PrintAttrShape(a, q);
      Blank(a.name, "=\"" + (Encode(a.value, true) + ("\"" + q)));
      ReadOne(a.name, a.value, q);
    }
  }

  // ----- tags -----

  lemma AfterName(attrs: seq<Attr>, seen: set<string>, rest: string)
    requires Fresh(attrs, seen)
    ensures var q := PrintAttrs(attrs, seen) + (">" + rest); q != "" && EndsName(q[0])
  {
    if attrs != [] {
      Seqs.Assoc(PrintAttr(attrs[0]), PrintAttrs(attrs[1..], seen + {attrs[0].name}), ">" + rest);
      PrintAttrShape(attrs[0], PrintAttrs(attrs[1..], seen + {attrs[0].name}) + (">" + rest));
    }
  }

  /** A written start tag opens the element. */
  lemma ReadOpenIs(e: Elem, rest: string, c: char, st: Stack)
    requires IsName(e.name) && GoodAttrs(e.attrs) && !st.Done?
    ensures ReadMarkup(e.name + (PrintAttrs(e.attrs, {}) + (">" + rest)), c, st)
         == GoodTag(OpenTag(st, e.name, KeptAttrs(e.attrs)), rest)
  {
    var q := PrintAttrs(e.attrs, {}) + (">" + rest);
    AfterName(e.attrs, {}, rest);
    SpanCat(e.name, q, EndsName);
    ReadAll(e.attrs, {}, rest);
    assert (e.name + q)[0] == e.name[0];
    assert (e.name + q)[|e.name|..] == q;
    assert (">" + rest)[1..] == rest;
  }

  /** A written end tag closes it. */
  lemma ReadCloseIs(name: string, rest: string, c: char, st: Stack)
    requires IsName(name) && st.On? && st.top.name == name
    ensures ReadMarkup("/" + (name + (">" + rest)), c, st) == GoodTag(CloseTop(st), rest)
  {
    var p := name + (">" + rest);
    assert ("/" + p)[1..] == p;
    SpanCat(name, ">" + rest, EndsClosing);
    assert p[|name|..] == ">" + rest && (">" + rest)[1..] == rest;
  }

  /** At the end of the buffer, whose last character was the '>'. */
  lemma ReadLastClose(name: string, st: Stack)
    requires IsName(name) && st.On? && st.top.name == name
    ensures ReadMarkup("/" + name, '>', st) == LastTag(CloseTop(st))
  {
    assert ("/" + name)[1..] == name && name + "" == name;
    SpanCat(name, "", EndsClosing);
  }

  // ----- elements -----

  /** What comes back of an element: feeds in attribute values are spaces. */
  function Kept(e: Elem): Elem {
    Elem(e.name, KeptAttrs(e.attrs), e.txt, KeptKids(e.kids))
  }

  function KeptKids(kids: Kids): Kids {
    match kids
    case NoKids => NoKids
    case Kid(off, e, rest) => Kid(off, Kept(e), KeptKids(rest))
  }

  function Append(k: Kids, l: Kids): Kids {
    match k
    case NoKids => l
    case Kid(off, e, rest) => Kid(off, e, Append(rest, l))
  }

  lemma {:induction false} AppendSnoc(k: Kids, off: nat, e: Elem, l: Kids)
    ensures Append(Snoc(k, off, e), l) == Append(k, Kid(off, e, l))
  {
    if k.Kid? {
      AppendSnoc(k.rest, off, e, l);
    }
  }

  lemma {:induction false} AppendNone(k: Kids)
    ensures Append(k, NoKids) == k
  {
    if k.Kid? {
      AppendNone(k.rest);
    }
  }

  /** The innermost element has all its text and these children, too. */
  function Filled(st: Stack, txt: string, kids: Kids): Stack
    requires st.On?
  {
    st.(top := st.top.(txt := txt, kids := Append(st.top.kids, KeptKids(kids))))
  }

  /** The element is read and closed. */
  function Added(st: Stack, e: Elem): Stack
    requires !st.Done?
  {
    CloseTop(Filled(OpenTag(st, e.name, KeptAttrs(e.attrs)), e.txt, e.kids))
  }

  /** A stretch of text in front of the next tag. */
  lemma Segment(x: string, q: string, c: char, st: Stack)
    requires NulFree(x) && st.On?
    ensures ParseText(Encode(x, false) + ("<" + q), c, st) == ParseFrom(q, c, CharContent(st, x))
  {
    hide ParseFrom, Decoded, EndsInReturn, Encode, NulFree;
    EncodedNothing(x);
    EncodeClean(x, false);
    SpanToCat(Encode(x, false), '<', "<" + q);
    Drop1(Encode(x, false), '<', q);
    DecodedText(x);
    if x == "" {
      assert st.top.txt + "" == st.top.txt;
    }
  }

  lemma EncodedNothing(x: string)
    ensures Encode(x, false) == "" <==> x == ""
  {
  }

  /** An element from behind its first '<', and what follows it. */
  function ElemText(e: Elem, rest: string): string {
    e.name + (PrintAttrs(e.attrs, {}) + (">" + (PrintKids(e.kids, e.txt, 0) + ("<" + ("/" + (e.name + (">" + rest)))))))
  }

  lemma PrintElemShape(e: Elem, rest: string)
    ensures PrintElem(e) + rest == "<" + ElemText(e, rest)
  {
    var n, a, k := e.name, PrintAttrs(e.attrs, {}), PrintKids(e.kids, e.txt, 0);
    assert "</" == "<" + "/";
    var close := "<" + ("/" + (n + (">" + rest)));
    assert "</" + n + ">" + rest == close;
    Seqs.Assoc(PrintOpen(e) + k, PrintClose(e), rest);
    Seqs.Assoc(PrintOpen(e), k, close);
    Seqs.Assoc("<" + n + a, ">", k + close);
    Seqs.Assoc("<" + n, a, ">" + (k + close));
    Seqs.Assoc("<", n, a + (">" + (k + close)));
  }

  lemma PrintKidShape(kids: Kids, txt: string, start: nat, q: string)
    requires kids.Kid? && start <= kids.off <= |txt|
    ensures PrintKids(kids, txt, start) + q
         == Encode(txt[start..kids.off], false) + ("<" + ElemText(kids.elem, PrintKids(kids.rest, txt, kids.off) + q))
  {
    var more := PrintKids(kids.rest, txt, kids.off) + q;
    Seqs.Assoc(Encode(txt[start..kids.off], false) + PrintElem(kids.elem), PrintKids(kids.rest, txt, kids.off), q);
    Seqs.Assoc(Encode(txt[start..kids.off], false), PrintElem(kids.elem), more);
    PrintElemShape(kids.elem, more);
  }

  /** Text up to a child, the child, and the rest. */
  lemma FilledKid(st: Stack, txt: string, start: nat, off: nat, e: Elem, rest: Kids)
    requires st.On? && start <= off <= |txt| && st.top.txt == txt[..start]
    ensures var st' := CharContent(st, txt[start..off]);
      && st'.On? && Added(st', e).On? && Added(st', e).top.txt == txt[..off]
      && Filled(Added(st', e), txt, rest) == Filled(st, txt, Kid(off, e, rest))
  {
    assert txt[..start] + txt[start..off] == txt[..off];
    AppendNone(KeptKids(e.kids));
    AppendSnoc(st.top.kids, off, Kept(e), KeptKids(rest));
  }

  lemma {:induction false} ReadKids(kids: Kids, txt: string, start: nat, q: string, c: char, st: Stack)
    requires NulFree(txt) && start <= |txt| && GoodKids(kids, start, |txt|) && st.On? && st.top.txt == txt[..start]
    ensures ParseText(PrintKids(kids, txt, start) + ("<" + q), c, st) == ParseFrom(q, c, Filled(st, txt, kids))
    decreases kids
  {
    hide ParseText, ParseFrom, Added, ElemText, Encode, PrintElem;
    match kids
    case NoKids =>
      Segment(txt[start..], q, c, st);
      assert txt[..start] + txt[start..] == txt;
      AppendNone(st.top.kids);
    case Kid(off, e, rest) =>
      var more := PrintKids(rest, txt, off) + ("<" + q);
      var st' := CharContent(st, txt[start..off]);
      PrintKidShape(kids, txt, start, "<" + q);
      Segment(txt[start..off], ElemText(e, more), c, st);
      FilledKid(st, txt, start, off, e, rest);
      ReadElem(e, more, c, st');
      ReadKids(rest, txt, off, q, c, Added(st', e));
  }

  /** An element written out is read back and closed, whatever follows. */
  lemma {:induction false} ReadElem(e: Elem, rest: string, c: char, st: Stack)
    requires Good(e) && !st.Done?
    ensures ParseFrom(ElemText(e, rest), c, st) == ParseText(rest, c, Added(st, e))
    decreases e
  {
    var end := "/" + (e.name + (">" + rest));
    var st1 := OpenTag(st, e.name, KeptAttrs(e.attrs));
    ReadOpenIs(e, PrintKids(e.kids, e.txt, 0) + ("<" + end), c, st);
    ReadKids(e.kids, e.txt, 0, end, c, st1);
    ReadCloseIs(e.name, rest, c, Filled(st1, e.txt, e.kids));
  }

  // ----- the document -----

  lemma {:induction false} AttrsNulFree(attrs: seq<Attr>, seen: set<string>)
    requires forall i :: 0 <= i < |attrs| ==> IsName(attrs[i].name) && NulFree(attrs[i].value)
    ensures NulFree(PrintAttrs(attrs, seen))
  {
    if attrs != [] {
      EncodeClean(attrs[0].value, true);
      NameNulFree(attrs[0].name);
      AttrsNulFree(attrs[1..], seen + {attrs[0].name});
      AttrsNulFree(attrs[1..], seen);
    }
  }

  lemma NameNulFree(n: string)
    requires IsName(n)
    ensures NulFree(n)
  {
    assert forall i :: 0 <= i < |n| ==> IsNameChar(n[i]);
  }

  lemma TextNulFree(txt: string, i: nat, j: nat)
    requires NulFree(txt) && i <= j <= |txt|
    ensures NulFree(Encode(txt[i..j], false))
  {
    EncodeClean(txt[i..j], false);
  }

  lemma {:induction false} KidsNulFree(kids: Kids, txt: string, start: nat)
    requires NulFree(txt) && start <= |txt| && GoodKids(kids, start, |txt|)
    ensures NulFree(PrintKids(kids, txt, start))
    decreases kids
  {
    match kids
    case NoKids =>
      assert txt[start..] == txt[start..|txt|];
      TextNulFree(txt, start, |txt|);
    case Kid(off, e, rest) =>
      TextNulFree(txt, start, off);
      ElemNulFree(e);
      KidsNulFree(rest, txt, off);
  }

  lemma {:induction false} ElemNulFree(e: Elem)
    requires Good(e)
    ensures NulFree(PrintElem(e))
    decreases e
  {
    NameNulFree(e.name);
    AttrsNulFree(e.attrs, {});
    KidsNulFree(e.kids, e.txt, 0);
  }

  /** The buffer without its last character. */
  lemma PrintElemEnd(e: Elem)
    ensures PrintElem(e)
      == "<" + (e.name + (PrintAttrs(e.attrs, {}) + (">" + (PrintKids(e.kids, e.txt, 0) + ("<" + ("/" + e.name))))))
        + ">"
  {
    var n, a, k := e.name, PrintAttrs(e.attrs, {}), PrintKids(e.kids, e.txt, 0);
    var close := "<" + ("/" + n);
    assert PrintClose(e) == close + ">";
    Seqs.Assoc(PrintOpen(e) + k, close, ">");
    Seqs.Assoc(PrintOpen(e), k, close);
    Seqs.Assoc("<" + n + a, ">", k + close);
    Seqs.Assoc("<" + n, a, ">" + (k + close));
    Seqs.Assoc("<", n, a + (">" + (k + close)));
  }

  lemma ReadRoot(e: Elem)
    requires Good(e)
    ensures ParseFrom(e.name
      + (PrintAttrs(e.attrs, {}) + (">" + (PrintKids(e.kids, e.txt, 0) + ("<" + ("/" + e.name))))), '>', Start)
         == Ok(Kept(e))
  {
    var st := OpenTag(Start, e.name, KeptAttrs(e.attrs));
    ReadOpenIs(e, PrintKids(e.kids, e.txt, 0) + ("<" + ("/" + e.name)), '>', Start);
    ReadKids(e.kids, e.txt, 0, "/" + e.name, '>', st);
    ReadLastClose(e.name, Filled(st, e.txt, e.kids));
  }

  lemma Ends(p: string, c: char)
    ensures (p + [c])[..|p + [c]| - 1] == p && (p + [c])[|p + [c]| - 1] == c
  {
  }

  /**
   Parsing the serialised tree gives the same names, attributes, text, children and child offsets, but for feeds in
   attribute values.
   */
  lemma ParsePrint(e: Elem)
    requires Good(e)
    ensures Parse(PrintElem(e)) == Ok(Kept(e))
  {
    var q := e.name + (PrintAttrs(e.attrs, {}) + (">" + (PrintKids(e.kids, e.txt, 0) + ("<" + ("/" + e.name)))));
    PrintElemEnd(e);
    ElemNulFree(e);
    Ends("<" + q, '>');
    assert NulFree("<" + q) by {
      assert forall i :: 0 <= i < |"<" + q| ==> ("<" + q)[i] == PrintElem(e)[i];
    }
    assert ("<" + q)[1..] == q && SpanTo("<" + q, '<') == 0;
    ReadRoot(e);
  }

  predicate NoFeeds(e: Elem) {
    && (forall i, j :: 0 <= i < |e.attrs| && 0 <= j < |e.attrs[i].value| ==> !IsFeed(e.attrs[i].value[j]))
    && NoFeedsIn(e.kids)
  }

  predicate NoFeedsIn(kids: Kids) {
    kids.Kid? ==> NoFeeds(kids.elem) && NoFeedsIn(kids.rest)
  }

  lemma KeptAttrsSame(attrs: seq<Attr>)
    ensures KeptAttrs(attrs) == attrs <==>
      forall i, j :: 0 <= i < |attrs| && 0 <= j < |attrs[i].value| ==> !IsFeed(attrs[i].value[j])
  {
    forall i | 0 <= i < |attrs|
      ensures KeptAttrs(attrs)[i] == attrs[i] <==> forall j :: 0 <= j < |attrs[i].value| ==> !IsFeed(attrs[i].value[j])
    {
      BacksSame(attrs[i].value);
    }
    if forall i, j :: 0 <= i < |attrs| && 0 <= j < |attrs[i].value| ==> !IsFeed(attrs[i].value[j]) {
      assert KeptAttrs(attrs) == attrs;
    }
  }

  lemma {:induction false} KeptSame(e: Elem)
    ensures Kept(e) == e <==> NoFeeds(e)
    decreases e
  {
    KeptAttrsSame(e.attrs);
    KeptKidsSame(e.kids);
  }

  lemma {:induction false} KeptKidsSame(kids: Kids)
    ensures KeptKids(kids) == kids <==> NoFeedsIn(kids)
    decreases kids
  {
    if kids.Kid? {
      KeptSame(kids.elem);
      KeptKidsSame(kids.rest);
    }
  }

  /** The round trip is exact if and only if no attribute value has a vertical tab or a form feed. */
  lemma RoundTrip(e: Elem)
    requires Good(e)
    ensures Parse(PrintElem(e)) == Ok(e) <==> NoFeeds(e)
  {
    ParsePrint(e);
    KeptSame(e);
  }

  /** A form feed does not come back: a tree that is read back as another one. */
  lemma FeedLost() returns (e: Elem)
    ensures Good(e) && e.attrs == [Attr("b", [12 as char])] && Parse(PrintElem(e)) != Ok(e)
  {
    e := Elem("a", [Attr("b", [12 as char])], "", NoKids);
    RoundTrip(e);
    assert IsFeed(e.attrs[0].value[0]);
    hide Parse, PrintElem;
  }
}
