/**
 The parser and the index: whatever text is parsed, the children of every
 element come in the order of their offsets, so that attaching them keeps the
 three chains of their parent right.
 */
module XmlLinks {
  import opened XmlAttr
  import opened XmlEncode
  import opened XmlTree

  // ----- what the parser builds -----

  /** At every level the offsets of the children do not decrease and lie within the text. */
  predicate Tidy(e: Elem) {
    TidyKids(e.kids, 0, |e.txt|)
  }

  predicate TidyKids(kids: Kids, from: nat, to: nat) {
    kids.Kid? ==> from <= kids.off <= to && Tidy(kids.elem) && TidyKids(kids.rest, kids.off, to)
  }

  /** The open elements are tidy, and each stands at the end of the text of the one around it. */
  predicate TidyStack(st: Stack) {
    match st
    case Start => true
    case Done(e) => Tidy(e)
    case On(top, below) =>
      && TidyKids(top.kids, 0, |top.txt|) && TidyStack(below)
      && !below.Done? && (below.On? ==> top.off == |below.top.txt|)
  }

  lemma {:induction false} TidySnoc(kids: Kids, from: nat, to: nat, e: Elem)
    requires from <= to && TidyKids(kids, from, to) && Tidy(e)
    ensures TidyKids(Snoc(kids, to, e), from, to)
    decreases kids
  {
    if kids.Kid? {
      TidySnoc(kids.rest, kids.off, to, e);
    }
  }

  lemma {:induction false} TidyLonger(kids: Kids, from: nat, to: nat, more: nat)
    requires TidyKids(kids, from, to) && to <= more
    ensures TidyKids(kids, from, more)
    decreases kids
  {
    if kids.Kid? {
      TidyLonger(kids.rest, kids.off, to, more);
    }
  }

  lemma TidyClose(st: Stack)
    requires st.On? && TidyStack(st)
    ensures TidyStack(CloseTop(st))
  {
    var e := Elem(st.top.name, st.top.attrs, st.top.txt, st.top.kids);
    assert Tidy(e);
    if st.below.On? {
      TidySnoc(st.below.top.kids, 0, |st.below.top.txt|, e);
    }
  }

  lemma TidyText(st: Stack, t: string)
    requires TidyStack(st)
    ensures TidyStack(CharContent(st, t))
  {
    if st.On? {
      TidyLonger(st.top.kids, 0, |st.top.txt|, |st.top.txt + t|);
    }
  }

  predicate TidyTag(r: TagRead) {
    (r.GoodTag? ==> TidyStack(r.st)) && (r.LastTag? ==> TidyStack(r.st))
  }

  lemma TidyOpen(st: Stack, name: string, attrs: seq<Attr>)
    requires TidyStack(st) && !st.Done?
    ensures var o := OpenTag(st, name, attrs); o.On? && TidyStack(o) && TidyStack(CloseTop(o))
  {
    TidyClose(OpenTag(st, name, attrs));
  }

  lemma TidyReadOpen(p: string, e: char, st: Stack)
    requires TidyStack(st)
    ensures TidyTag(ReadOpen(p, e, st))
  {
    hide TidyStack, CloseTop, OpenTag, Span, Past, ReadAttrs;
    if !st.Done? {
      var n := Span(p, EndsName);
      var r := ReadAttrs(Past(p[n..], NoSpace));
      if r.Attrs? {
        TidyOpen(st, p[..n], r.attrs);
      }
    }
  }

  lemma TidyReadClose(p: string, e: char, st: Stack)
    requires TidyStack(st)
    ensures TidyTag(ReadClose(p, e, st))
  {
    hide TidyStack, CloseTop, Span, Past;
    if st.On? {
      TidyClose(st);
    }
  }

  lemma TidyReadCData(p: string, st: Stack)
    requires TidyStack(st)
    ensures TidyTag(ReadCData(p, st))
  {
    hide TidyStack, CharContent, Find, Decoded;
    var f := Find(p, "]]>");
    if f.At? {
      TidyText(st, Decoded(p[..f.n], 'c'));
    }
  }

  lemma TidyMarkup(p: string, e: char, st: Stack)
    requires TidyStack(st)
    ensures TidyTag(ReadMarkup(p, e, st))
  {
    hide TidyStack, ReadOpen, ReadClose, ReadCData, Find;
    TidyReadOpen(p, e, st);
    if p != "" {
      TidyReadClose(p[1..], e, st);
    }
    if "![CDATA[" <= p {
      TidyReadCData(p[8..], st);
    }
  }

  lemma {:induction false} TidyParse(p: string, e: char, st: Stack)
    requires TidyStack(st)
    ensures var r := ParseFrom(p, e, st); r.Ok? ==> Tidy(r.root)
    decreases |p|, 1
  {
    hide ReadMarkup, ParseText, TidyKids;
    TidyMarkup(p, e, st);
    var r := ReadMarkup(p, e, st);
    if r.GoodTag? {
      TidyRest(r.rest, e, r.st);
    }
  }

  lemma {:induction false} TidyRest(p: string, e: char, st: Stack)
    requires TidyStack(st)
    ensures var r := ParseText(p, e, st); r.Ok? ==> Tidy(r.root)
    decreases |p|, 0
  {
    hide ParseFrom, CharContent, Decoded, TidyKids;
    var n := SpanTo(p, '<');
    if n < |p| {
      TidyText(st, Decoded(p[..n], '&'));
      TidyParse(p[n + 1..], e, st);
      TidyParse(p[n + 1..], e, CharContent(st, Decoded(p[..n], '&')));
    }
  }

  /** Every tree the parser gives is tidy, for every text. */
  lemma ParsedTidy(s: string)
    ensures var r := Parse(s); r.Ok? ==> Tidy(r.root)
  {
    hide ParseFrom;
    if s != "" {
      var p := UpToNul(s[..|s| - 1]);
      var n := SpanTo(p, '<');
      if n < |p| {
        TidyParse(p[n + 1..], s[|s| - 1], Start);
      }
    }
  }
}
