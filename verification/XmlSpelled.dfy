/**
 A document as it may be written: white space within tags, either quote,
 attributes without a value, empty-element tags, references, line ends,
 character data sections and comments; and the tree it is read as.
 */
module XmlSpelled {
  import Seqs
  import opened XmlAttr
  import opened CText
  import opened XmlEntities
  import XmlDecode
  import opened XmlEncode
  import opened XmlText
  import opened XmlTree
  import opened XmlReferences
  import opened XmlRoundTrip
  import XmlDocument
  import XmlParser

  /** `lead` stands in front of the name, `gap` between it and the quote. */
  datatype SAttr =
    | Valued(lead: string, name: string, gap: string, quote: char, value: seq<Piece>)
    | Bare(lead: string, name: string)

  /** `tail` stands at the end of the start tag, `gap` at the end of the end tag. */
  datatype SElem = SElem(name: string, attrs: seq<SAttr>, tail: string, body: Body)
  datatype Body = Empty | Full(content: Content, gap: string)
  datatype Content = Last(text: seq<Piece>) | Then(text: seq<Piece>, mark: Mark, more: Content)
  datatype Mark = Child(elem: SElem) | CData(data: string) | Comment(note: string)

  // ----- the text -----

  function AttrText(a: SAttr, rest: string): string {
    match a
    case Valued(lead, name, gap, quote, value) =>
      lead + (name + (gap + ([quote] + (XmlReferences.TextOf(value) + ([quote] + rest)))))
    case Bare(lead, name) => lead + (name + rest)
  }

  function AttrsText(attrs: seq<SAttr>, rest: string): string {
    if attrs == [] then rest else AttrText(attrs[0], AttrsText(attrs[1..], rest))
  }

  /** An element from behind its first '<' up to its last '>', and then `z`. */
  function CoreText(e: SElem, z: string): string
    decreases e
  {
    e.name + AttrsText(e.attrs, e.tail +
      match e.body
      case Empty => "/" + z
      case Full(content, gap) => ">" + ContentText(content, "<" + ("/" + (e.name + (gap + z)))))
  }

  function ContentText(c: Content, rest: string): string
    decreases c
  {
    match c
    case Last(text) => XmlReferences.TextOf(text) + rest
    case Then(text, mark, more) => XmlReferences.TextOf(text) + ("<" + MarkText(mark, ContentText(more, rest)))
  }

  function MarkText(m: Mark, rest: string): string
    decreases m
  {
    match m
    case Child(e) => CoreText(e, ">" + rest)
    case CData(data) => "![CDATA[" + (data + ("]]>" + rest))
    case Comment(note) => "!--" + (note + ("-->" + rest))
  }

  // ----- what may be written -----

  predicate White(w: string) {
    forall i :: 0 <= i < |w| ==> w[i] == ' ' || w[i] == '\t' || w[i] == '\r' || w[i] == '\n'
  }

  /** No `w` in `s`. */
  predicate Lacks(s: string, w: string) {
    forall i :: 0 <= i <= |s| ==> !(w <= s[i..])
  }

  predicate ValueOk(ps: seq<Piece>, end: char) {
    PiecesOk(ps) && Terminated(ps) && end !in XmlReferences.TextOf(ps)
  }

  predicate AttrOk(a: SAttr) {
    && a.lead != "" && White(a.lead) && IsName(a.name)
    && (a.Valued? ==>
      && (a.quote == '\"' || a.quote == '\'') && ValueOk(a.value, a.quote)
      && a.gap != "" && forall i :: 0 <= i < |a.gap| ==> a.gap[i] == '=' || White([a.gap[i]]))
  }

  predicate ElemOk(e: SElem)
    decreases e
  {
    && IsName(e.name) && (forall i :: 0 <= i < |e.attrs| ==> AttrOk(e.attrs[i])) && White(e.tail)
    && match e.body
       case Empty => true
       case Full(content, gap) => ContentOk(content) && White(gap)
  }

  predicate ContentOk(c: Content)
    decreases c
  {
    ValueOk(c.text, '<') && (c.Then? ==> MarkOk(c.mark) && ContentOk(c.more))
  }

  predicate MarkOk(m: Mark)
    decreases m
  {
    match m
    case Child(e) => ElemOk(e)
    case CData(data) => Lacks(data, "]]>") && '\r' !in data
    case Comment(note) => Lacks(note + "-", "--")
  }

  // ----- what it means -----

  function AttrMeans(a: SAttr): Attr {
    Attr(a.name, if a.Valued? then MeaningOf(a.value, true) else "")
  }

  function AttrsMean(attrs: seq<SAttr>): seq<Attr> {
    if attrs == [] then [] else [AttrMeans(attrs[0])] + AttrsMean(attrs[1..])
  }

  function ElemMeans(e: SElem): Elem
    decreases e
  {
    match e.body
    case Empty => Elem(e.name, AttrsMean(e.attrs), "", NoKids)
    case Full(content, _) => Elem(e.name, AttrsMean(e.attrs), TxtOf(content), KidsOf(content, 0))
  }

  /** The text between the tags, and all character data. */
  function TxtOf(c: Content): string {
    match c
    case Last(text) => MeaningOf(text, false)
    case Then(text, mark, more) => MeaningOf(text, false) + ((if mark.CData? then mark.data else "") + TxtOf(more))
  }

  /** The children, each at the end of the text in front of it; there are `off` characters in front of them all. */
  function KidsOf(c: Content, off: nat): Kids
    decreases c
  {
    match c
    case Last(_) => NoKids
    case Then(text, mark, more) =>
      var at := off + |MeaningOf(text, false)|;
      match mark
      case Child(e) => Kid(at, ElemMeans(e), KidsOf(more, at))
      case CData(data) => KidsOf(more, at + |data|)
      case Comment(_) => KidsOf(more, at)
  }

  // ----- text -----

  lemma DefaultsReady(t: char)
    ensures Ready(Context(DEFAULTS, RANKS, 1, t))
  {
    hide XmlDecode.Usable, XmlDecode.OneSemi, XmlDecode.Complete, Ranked;
    DefaultsBounded();
    forall i | 0 <= i < |DEFAULTS|
      ensures NulFree(DEFAULTS[i].value)
    {
      ValueNulFree(i);
    }
  }

  lemma ValueNulFree(b: nat)
    requires b < |DEFAULTS|
    ensures NulFree(DEFAULTS[b].value)
  {
  }

  lemma DecodedPieces(ps: seq<Piece>, a: bool)
    requires PiecesOk(ps) && Terminated(ps)
    ensures var s := XmlReferences.TextOf(ps); Decoded(s, Mode(a)) == MeaningOf(ps, a) && !EndsInReturn(s)
  {
    DefaultsReady(Mode(a));
    DecodedIs(ps, a, Context(DEFAULTS, RANKS, 1, Mode(a)));
    hide PiecesOk, Terminated, XmlReferences.TextOf, MeaningOf, Normal;
  }

  lemma NoText(ps: seq<Piece>)
    requires PiecesOk(ps)
    ensures XmlReferences.TextOf(ps) == "" <==> ps == []
    ensures ps == [] ==> MeaningOf(ps, false) == ""
  {
    if ps != [] {
      PieceShows(ps[0], XmlReferences.TextOf(ps[1..]));
    }
  }

  /** A stretch of text in front of the next tag. */
  lemma ReadPieces(ps: seq<Piece>, q: string, c: char, st: Stack)
    requires ValueOk(ps, '<') && st.On?
    ensures ParseText(XmlReferences.TextOf(ps) + ("<" + q), c, st)
      == ParseFrom(q, c, CharContent(st, MeaningOf(ps, false)))
  {
    hide ParseFrom, Decoded, EndsInReturn, XmlReferences.TextOf, MeaningOf, PiecesOk, Terminated;
    var x := XmlReferences.TextOf(ps);
    NoText(ps);
    SpanToCat(x, '<', "<" + q);
    Drop1(x, '<', q);
    DecodedPieces(ps, false);
    if ps == [] {
      assert st.top.txt + "" == st.top.txt;
    }
  }

  // ----- attributes -----

  lemma ReadQuotedPieces(ps: seq<Piece>, quote: char, rest: string)
    requires ValueOk(ps, quote)
    ensures ReadQuoted(XmlReferences.TextOf(ps) + ([quote] + rest), quote) == Value(MeaningOf(ps, true), rest)
  {
    hide Decoded, EndsInReturn, XmlReferences.TextOf, MeaningOf, PiecesOk, Terminated;
    var x := XmlReferences.TextOf(ps);
    SpanToCat(x, quote, [quote] + rest);
    Drop1(x, quote, rest);
    DecodedPieces(ps, true);
  }

  predicate GapOk(gap: string) {
    gap != "" && forall i :: 0 <= i < |gap| ==> gap[i] == '=' || White([gap[i]])
  }

  lemma GapSkipped(gap: string, quote: char, v: string)
    requires GapOk(gap) && (quote == '\"' || quote == '\'')
    ensures var q := gap + ([quote] + v);
      q != "" && EndsAttrName(q[0]) && (q[0] == '=' || IsSpace(q[0])) && ReadValue(q) == ReadQuoted(v, quote)
  {
    var q := gap + ([quote] + v);
    assert q[0] == gap[0] && q[1..] == gap[1..] + ([quote] + v);
    forall i | 0 <= i < |gap|
      ensures IsWs(gap[i]) || gap[i] == '='
    {
      assert White([gap[i]]) ==> [gap[i]][0] == gap[i];
    }
    SpanCat(gap[1..], [quote] + v, NoWsOrEquals);
    assert ([quote] + v)[1..] == v && ([quote] + v)[0] == quote;
    hide ReadQuoted;
  }

  /** An attribute with a value, from its name on. */
  lemma ReadValued(a: SAttr, rest: string)
    requires a.Valued? && AttrOk(a)
    ensures ReadAttrs(a.name + (a.gap + ([a.quote] + (XmlReferences.TextOf(a.value) + ([a.quote] + rest)))))
         == More(AttrMeans(a), ReadAttrs(Past(rest, NoSpace)))
  {
    hide ReadQuoted, ReadValue, XmlReferences.TextOf, MeaningOf, ValueOk;
    var v := XmlReferences.TextOf(a.value) + ([a.quote] + rest);
    var q := a.gap + ([a.quote] + v);
    GapSkipped(a.gap, a.quote, v);
    ReadQuotedPieces(a.value, a.quote, rest);
    SpanCat(a.name, q, EndsAttrName);
    assert (a.name + q)[0] == a.name[0];
  }

  /** What may follow an attribute: white space, and then a name or the end of the tag. */
  ghost predicate Follows(rest: string, w: string, v: string) {
    && rest == w + v && White(w) && v != "" && (w == "" ==> EndsTag(v[0]))
    && !IsSpace(v[0]) && v[0] != '=' && v[0] != '\"' && v[0] != '\''
  }

  lemma WhiteSkipped(w: string, v: string)
    requires White(w) && v != "" && !IsSpace(v[0])
    ensures Past(w + v, NoSpace) == v && (v[0] != '=' ==> Past(w + v, NoWsOrEquals) == v)
  {
    SpanCat(w, v, NoSpace);
    if v[0] != '=' {
      SpanCat(w, v, NoWsOrEquals);
    }
  }

  /** An attribute without a value. */
  lemma ReadBare(name: string, rest: string, w: string, v: string)
    requires IsName(name) && Follows(rest, w, v)
    ensures ReadAttrs(name + rest) == More(Attr(name, ""), ReadAttrs(Past(rest, NoSpace)))
  {
    hide Past, IsName;
    NameSpan(name, rest, w, v);
    WhiteSkipped(w, v);
    WhiteSkipped("", v);
    assert "" + v == v;
    if w != "" {
      assert rest[0] == w[0] && rest[1..] == w[1..] + v;
      WhiteSkipped(w[1..], v);
    } else {
      assert rest == v;
    }
  }

  lemma NameSpan(name: string, rest: string, w: string, v: string)
    requires IsName(name) && Follows(rest, w, v)
    ensures var p := name + rest;
      p != "" && !EndsTag(p[0]) && Span(p, EndsAttrName) == |name| && p[..|name|] == name
        && Past(p, EndsAttrName) == rest
  {
    assert rest != "" && EndsAttrName(rest[0]);
    SpanCat(name, rest, EndsAttrName);
    assert (name + rest)[0] == name[0];
  }

  lemma AfterLead(lead: string, name: string, x: string)
    requires White(lead) && IsName(name)
    ensures Past(lead + (name + x), NoSpace) == name + x
  {
    assert (name + x)[0] == name[0];
    WhiteSkipped(lead, name + x);
  }

  /** Behind an attribute, or behind the name of the tag. */
  lemma AttrsShow(attrs: seq<SAttr>, tail: string, b: string) returns (w: string, v: string)
    requires (forall i :: 0 <= i < |attrs| ==> AttrOk(attrs[i])) && White(tail) && b != "" && EndsTag(b[0])
    ensures Follows(AttrsText(attrs, tail + b), w, v)
  {
    if attrs == [] {
      w, v := tail, b;
    } else {
      var a, rest := attrs[0], AttrsText(attrs[1..], tail + b);
      w := a.lead;
      v := match a
        case Valued(_, name, gap, quote, value) =>
          name + (gap + ([quote] + (XmlReferences.TextOf(value) + ([quote] + rest))))
        case Bare(_, name) => name + rest;
      assert v[0] == a.name[0];
    }
    hide AttrsText;
  }

  lemma {:induction false} ReadAllAttrs(attrs: seq<SAttr>, tail: string, b: string)
    requires (forall i :: 0 <= i < |attrs| ==> AttrOk(attrs[i])) && White(tail) && b != "" && EndsTag(b[0])
    ensures ReadAttrs(Past(AttrsText(attrs, tail + b), NoSpace)) == Attrs(AttrsMean(attrs), b)
    decreases |attrs|
  {
    hide Past, IsName, XmlReferences.TextOf, MeaningOf, ValueOk;
    if attrs == [] {
      WhiteSkipped(tail, b);
    } else {
      var a, rest := attrs[0], AttrsText(attrs[1..], tail + b);
      ReadAllAttrs(attrs[1..], tail, b);
      match a {
        case Valued(lead, name, gap, quote, value) =>
          AfterLead(lead, name, gap + ([quote] + (XmlReferences.TextOf(value) + ([quote] + rest))));
          ReadValued(a, rest);
        case Bare(lead, name) =>
          AfterLead(lead, name, rest);
          var w, v := AttrsShow(attrs[1..], tail, b);
          ReadBare(name, rest, w, v);
      }
      hide ReadAttrs;
    }
  }

  // ----- tags -----

  /** A start tag up to its slash or '>'. */
  lemma ReadStart(e: SElem, b: string, c: char, st: Stack)
    requires ElemOk(e) && !st.Done? && b != "" && EndsTag(b[0])
    ensures ReadMarkup(e.name + AttrsText(e.attrs, e.tail + b), c, st)
      == EndOpen(b, c, OpenTag(st, e.name, AttrsMean(e.attrs)))
  {
    hide ReadAttrs, AttrsText, AttrsMean, EndOpen, AttrOk;
    var rest := AttrsText(e.attrs, e.tail + b);
    var w, v := AttrsShow(e.attrs, e.tail, b);
    ReadAllAttrs(e.attrs, e.tail, b);
    assert EndsName(rest[0]);
    SpanCat(e.name, rest, EndsName);
    assert (e.name + rest)[0] == e.name[0] && (e.name + rest)[|e.name|..] == rest;
  }

  lemma ReadEnd(name: string, gap: string, rest: string, c: char, st: Stack)
    requires IsName(name) && White(gap) && st.On? && st.top.name == name
    ensures ReadMarkup("/" + (name + (gap + (">" + rest))), c, st) == GoodTag(CloseTop(st), rest)
  {
    hide CloseTop, IsName, Past, Span, White, ReadMarkup;
    var p := name + (gap + (">" + rest));
    SlashIs(p, c, st);
    EndSpan(name, gap, rest);
    assert (">" + rest)[1..] == rest;
  }

  lemma SlashIs(p: string, c: char, st: Stack)
    ensures ReadMarkup("/" + p, c, st) == ReadClose(p, c, st)
  {
    assert ("/" + p)[1..] == p;
    hide ReadOpen, ReadClose, ReadComment, ReadCData;
  }

  lemma EndSpan(name: string, gap: string, rest: string)
    requires IsName(name) && White(gap)
    ensures var p := name + (gap + (">" + rest));
      && Span(p, EndsClosing) == |name| < |p| && p[..|name|] == name
      && (if IsSpace(p[|name|]) then Past(p[|name|..], NoWs) else p[|name|..]) == ">" + rest
  {
    var q := gap + (">" + rest);
    var p := name + q;
    assert q[0] == if gap == "" then '>' else gap[0];
    SpanCat(name, q, EndsClosing);
    assert p[|name|..] == q && p[|name|] == q[0];
    SpanCat(gap, ">" + rest, NoWs);
    if gap == "" {
      assert q == ">" + rest;
    }
  }

  /** At the end of the buffer, whose last character was the '>'. */
  lemma ReadLastEnd(name: string, gap: string, st: Stack)
    requires IsName(name) && White(gap) && st.On? && st.top.name == name
    ensures ReadMarkup("/" + (name + gap), '>', st) == LastTag(CloseTop(st))
  {
    hide CloseTop, ReadMarkup;
    var p := name + gap;
    SlashIs(p, '>', st);
    SpanCat(name, gap, EndsClosing);
    if gap != "" {
      assert p[|name|..] == gap && p[|name|] == gap[0];
      assert gap + "" == gap;
      SpanCat(gap, "", NoWs);
    } else {
      assert p == name;
    }
  }

  // ----- character data and comments -----

  lemma LacksLess(s: string, w: string)
    requires Lacks(s, w) && s != ""
    ensures Lacks(s[1..], w)
  {
    forall i | 0 <= i <= |s[1..]|
      ensures !(w <= s[1..][i..])
    {
      assert s[1..][i..] == s[i + 1..];
    }
  }

  lemma {:induction false} FindIn(s: string, w: string, rest: string)
    requires forall i :: 0 <= i < |s| ==> !(w <= (s + (w + rest))[i..])
    ensures Find(s + (w + rest), w) == At(|s|)
    decreases |s|
  {
    var p := s + (w + rest);
    if s == "" {
      assert p == w + rest;
    } else {
      assert p[0..] == p && p[1..] == s[1..] + (w + rest);
      forall i | 0 <= i < |s[1..]|
        ensures !(w <= (s[1..] + (w + rest))[i..])
      {
        assert p[i + 1..] == p[1..][i..];
      }
      FindIn(s[1..], w, rest);
    }
  }

  lemma TwoAt(x: string, i: nat)
    requires i + 1 < |x|
    ensures "--" <= x[i..] <==> x[i] == '-' && x[i + 1] == '-'
  {
    assert x[i..][0] == x[i] && x[i..][1] == x[i + 1];
  }

  lemma ThreeAt(x: string, i: nat)
    requires i + 2 < |x|
    ensures "]]>" <= x[i..] <==> x[i] == ']' && x[i + 1] == ']' && x[i + 2] == '>'
  {
    assert x[i..][0] == x[i] && x[i..][1] == x[i + 1] && x[i..][2] == x[i + 2];
  }

  /** The first end of a section is the end of its data. */
  lemma DataEnds(data: string, rest: string)
    requires Lacks(data, "]]>")
    ensures Find(data + ("]]>" + rest), "]]>") == At(|data|)
  {
    var p := data + ("]]>" + rest);
    forall i | 0 <= i < |data|
      ensures !("]]>" <= p[i..])
    {
      DataGoesOn(data, rest, i);
    }
    FindIn(data, "]]>", rest);
  }

  lemma DataGoesOn(data: string, rest: string, i: nat)
    requires Lacks(data, "]]>") && i < |data|
    ensures !("]]>" <= (data + ("]]>" + rest))[i..])
  {
    var p := data + ("]]>" + rest);
    ThreeAt(p, i);
    if i + 2 < |data| {
      ThreeAt(data, i);
    } else {
      assert p[i + 2] == "]]>"[i + 2 - |data|];
    }
  }

  lemma NoteEnds(note: string, rest: string)
    requires Lacks(note + "-", "--")
    ensures Find(note + ("-->" + rest), "--") == At(|note|)
  {
    hide Find, Lacks;
    assert "--" + ">" == "-->";
    Seqs.Assoc("--", ">", rest);
    NoteFound(note, ">" + rest);
  }

  lemma NoteFound(note: string, rest: string)
    requires Lacks(note + "-", "--")
    ensures Find(note + ("--" + rest), "--") == At(|note|)
  {
    var p := note + ("--" + rest);
    forall i | 0 <= i < |note|
      ensures !("--" <= p[i..])
    {
      NoteGoesOn(note, rest, i);
    }
    FindIn(note, "--", rest);
  }

  lemma NoteGoesOn(note: string, rest: string, i: nat)
    requires Lacks(note + "-", "--") && i < |note|
    ensures !("--" <= (note + ("--" + rest))[i..])
  {
    var p, s := note + ("--" + rest), note + "-";
    TwoAt(p, i);
    TwoAt(s, i);
    assert p[i + 1] == s[i + 1];
  }

  lemma DecodedData(data: string)
    requires '\r' !in data
    ensures Decoded(data, 'c') == data && !EndsInReturn(data)
  {
    NormalSame(data);
    DataKept(data, DEFAULTS, RANKS, 1);
  }

  /**
   A section of character data adds exactly its data to the text of the innermost element: no reference is replaced in
   it, and no tag is read.
   */
  lemma DataAdded(data: string, rest: string, c: char, st: Stack)
    requires st.On? && Lacks(data, "]]>") && '\r' !in data
    ensures ParseFrom("![CDATA[" + (data + ("]]>" + rest)), c, st)
         == ParseText(rest, c, st.(top := st.top.(txt := st.top.txt + data)))
  {
    hide ParseText, Decoded, Find, EndsInReturn, ReadMarkup, Lacks;
    var p := data + ("]]>" + rest);
    DataEnds(data, rest);
    DecodedData(data);
    MarkupIs(p, c, st);
    assert p[..|data|] == data && p[|data| + 3..] == rest;
    assert st.top.txt + "" == st.top.txt;
  }

  lemma MarkupIs(p: string, c: char, st: Stack)
    ensures ReadMarkup("![CDATA[" + p, c, st) == ReadCData(p, st)
    ensures ReadMarkup("!--" + p, c, st) == ReadComment(p, c, st)
  {
    var d, n := "![CDATA[" + p, "!--" + p;
    assert d[8..] == p && n[3..] == p && d[1] == '[' && n[1] == '-';
    hide ReadOpen, ReadClose, ReadCData, ReadComment;
  }

  /** A comment changes nothing. */
  lemma CommentGone(note: string, rest: string, c: char, st: Stack)
    requires Lacks(note + "-", "--")
    ensures ParseFrom("!--" + (note + ("-->" + rest)), c, st) == ParseText(rest, c, st)
  {
    hide ParseText, Find, ReadMarkup, Lacks;
    var p := note + ("-->" + rest);
    NoteEnds(note, rest);
    MarkupIs(p, c, st);
    assert p[|note| + 2..] == ">" + rest && (">" + rest)[1..] == rest;
  }

  // ----- elements -----

  /** The element becomes the last child of the innermost one, or the root. */
  function WithElem(st: Stack, e: Elem): Stack
    requires !st.Done?
  {
    var o := OpenTag(st, e.name, e.attrs);
    CloseTop(o.(top := o.top.(txt := e.txt, kids := e.kids)))
  }

  /** The innermost element has more text and more children. */
  function WithContent(st: Stack, c: Content): Stack
    requires st.On?
  {
    st.(top := st.top.(txt := st.top.txt + TxtOf(c), kids := Append(st.top.kids, KidsOf(c, |st.top.txt|))))
  }

  lemma LastContent(st: Stack, text: seq<Piece>)
    requires st.On?
    ensures WithContent(st, Last(text)) == CharContent(st, MeaningOf(text, false))
  {
    AppendNone(st.top.kids);
  }

  lemma DataContent(st: Stack, text: seq<Piece>, data: string, more: Content)
    requires st.On?
    ensures var s := CharContent(CharContent(st, MeaningOf(text, false)), data);
      s.On? && WithContent(s, more) == WithContent(st, Then(text, CData(data), more))
  {
    var t, m := st.top.txt, MeaningOf(text, false);
    Seqs.Assoc(t + m, data, TxtOf(more));
    Seqs.Assoc(t, m, data + TxtOf(more));
  }

  lemma NoteContent(st: Stack, text: seq<Piece>, note: string, more: Content)
    requires st.On?
    ensures var s := CharContent(st, MeaningOf(text, false));
      s.On? && WithContent(s, more) == WithContent(st, Then(text, Comment(note), more))
  {
    var t, m := st.top.txt, MeaningOf(text, false);
    Seqs.Assoc(t, m, TxtOf(more));
    assert "" + TxtOf(more) == TxtOf(more);
  }

  lemma ChildContent(st: Stack, text: seq<Piece>, e: SElem, more: Content)
    requires st.On?
    ensures var s := WithElem(CharContent(st, MeaningOf(text, false)), ElemMeans(e));
      s.On? && WithContent(s, more) == WithContent(st, Then(text, Child(e), more))
  {
    var t, m := st.top.txt, MeaningOf(text, false);
    Seqs.Assoc(t, m, TxtOf(more));
    assert "" + TxtOf(more) == TxtOf(more);
    AppendSnoc(st.top.kids, |t + m|, ElemMeans(e), KidsOf(more, |t + m|));
  }

  lemma {:induction false} ReadContent(c: Content, q: string, last: char, st: Stack)
    requires ContentOk(c) && st.On?
    ensures ParseText(ContentText(c, "<" + q), last, st) == ParseFrom(q, last, WithContent(st, c))
    decreases c, 1
  {
    hide ParseText, ParseFrom, WithElem, WithContent, CoreText, XmlReferences.TextOf, MeaningOf, ValueOk, Lacks;
    match c
    case Last(text) =>
      ReadPieces(text, q, last, st);
      LastContent(st, text);
    case Then(text, mark, more) =>
      var rest := ContentText(more, "<" + q);
      var s := CharContent(st, MeaningOf(text, false));
      ReadPieces(text, MarkText(mark, rest), last, st);
      match mark {
        case Child(e) =>
          ChildContent(st, text, e, more);
          ReadElem(e, rest, last, s);
          ReadContent(more, q, last, WithElem(s, ElemMeans(e)));
        case CData(data) =>
          DataContent(st, text, data, more);
          DataAdded(data, rest, last, s);
          ReadContent(more, q, last, CharContent(s, data));
        case Comment(note) =>
          NoteContent(st, text, note, more);
          CommentGone(note, rest, last, s);
          ReadContent(more, q, last, s);
      }
  }

  lemma EmptyContent(o: Stack, e: SElem, st: Stack)
    requires !st.Done? && e.body.Empty? && o == OpenTag(st, e.name, AttrsMean(e.attrs))
    ensures CloseTop(o) == WithElem(st, ElemMeans(e))
  {
  }

  lemma FullContent(o: Stack, e: SElem, st: Stack)
    requires !st.Done? && e.body.Full? && o == OpenTag(st, e.name, AttrsMean(e.attrs))
    ensures WithContent(o, e.body.content).On? && WithContent(o, e.body.content).top.name == e.name
    ensures CloseTop(WithContent(o, e.body.content)) == WithElem(st, ElemMeans(e))
  {
    var c := e.body.content;
    assert "" + TxtOf(c) == TxtOf(c);
  }

  /** An element is read and closed, whatever follows. */
  lemma {:induction false} ReadElem(e: SElem, rest: string, last: char, st: Stack)
    requires ElemOk(e) && !st.Done?
    ensures ParseFrom(CoreText(e, ">" + rest), last, st) == ParseText(rest, last, WithElem(st, ElemMeans(e)))
    decreases e, 0
  {
    hide ReadMarkup, ParseText, WithElem, WithContent, ContentText, AttrsText, AttrsMean, ContentOk, AttrOk;
    var o := OpenTag(st, e.name, AttrsMean(e.attrs));
    match e.body
    case Empty =>
      var b := "/" + (">" + rest);
      ReadStart(e, b, last, st);
      SlashEnd(b, rest, last, o);
      EmptyContent(o, e, st);
    case Full(c, gap) =>
      var q := "/" + (e.name + (gap + (">" + rest)));
      var b := ">" + ContentText(c, "<" + q);
      ReadStart(e, b, last, st);
      GreaterEnd(b, ContentText(c, "<" + q), last, o);
      ReadContent(c, q, last, o);
      FullContent(o, e, st);
      ReadEnd(e.name, gap, rest, last, WithContent(o, c));
  }

  lemma SlashEnd(b: string, rest: string, last: char, o: Stack)
    requires o.On? && b == "/" + (">" + rest)
    ensures b != "" && EndsTag(b[0]) && EndOpen(b, last, o) == GoodTag(CloseTop(o), rest)
  {
    assert b[2..] == rest && b[1] == '>';
  }

  lemma GreaterEnd(b: string, x: string, last: char, o: Stack)
    requires o.On? && b == ">" + x
    ensures b != "" && EndsTag(b[0]) && EndOpen(b, last, o) == GoodTag(o, x)
  {
    assert b[1..] == x;
  }

  /** The root, whose '>' is the last character of the document. */
  lemma ReadRootElem(e: SElem)
    requires ElemOk(e)
    ensures ParseFrom(CoreText(e, ""), '>', Start) == Ok(ElemMeans(e))
  {
    hide ReadMarkup, ParseText, WithContent, ContentText, AttrsText, AttrsMean, ContentOk, AttrOk, ElemMeans;
    var o := OpenTag(Start, e.name, AttrsMean(e.attrs));
    match e.body
    case Empty =>
      ReadStart(e, "/" + "", '>', Start);
      assert EndOpen("/", '>', o) == LastTag(CloseTop(o));
      EmptyContent(o, e, Start);
    case Full(c, gap) =>
      var q := "/" + (e.name + (gap + ""));
      var b := ">" + ContentText(c, "<" + q);
      ReadStart(e, b, '>', Start);
      GreaterEnd(b, ContentText(c, "<" + q), '>', o);
      ReadContent(c, q, '>', o);
      FullContent(o, e, Start);
      assert gap + "" == gap;
      ReadLastEnd(e.name, gap, WithContent(o, c));
  }

  // ----- documents -----

  /**
   Comments, each with the text behind it, may stand in front of the root; text may stand in front of all and behind.
   */
  datatype SDoc = SDoc(before: string, notes: seq<(string, string)>, root: SElem, after: string)

  function NotesText(notes: seq<(string, string)>, rest: string): string {
    if notes == [] then rest
    else "<" + ("!--" + (notes[0].0 + ("-->" + (notes[0].1 + NotesText(notes[1..], rest)))))
  }

  function DocText(d: SDoc): string {
    d.before + NotesText(d.notes, "<" + CoreText(d.root, ">" + d.after))
  }

  predicate DocOk(d: SDoc) {
    && '<' !in d.before && NotesOk(d.notes) && ElemOk(d.root) && '<' !in d.after && NulFree(DocText(d))
    && (d.before != "" ==> d.before[0] != 0xFE as char && d.before[0] != 0xFF as char)
  }

  predicate NotesOk(notes: seq<(string, string)>) {
    forall i :: 0 <= i < |notes| ==> Lacks(notes[i].0 + "-", "--") && '<' !in notes[i].1
  }

  lemma {:induction false} AttrsCat(attrs: seq<SAttr>, a: string, b: string)
    ensures AttrsText(attrs, a + b) == AttrsText(attrs, a) + b
    decreases |attrs|
  {
    if attrs != [] {
      AttrsCat(attrs[1..], a, b);
      AttrCat(attrs[0], AttrsText(attrs[1..], a), b);
      hide AttrText;
    }
  }

  lemma AttrCat(x: SAttr, a: string, b: string)
    ensures AttrText(x, a + b) == AttrText(x, a) + b
  {
    hide XmlReferences.TextOf;
    match x
    case Valued(lead, name, gap, quote, value) =>
      var v := XmlReferences.TextOf(value);
      Seqs.Assoc([quote], a, b);
      Seqs.Assoc(v, [quote] + a, b);
      Seqs.Assoc([quote], v + ([quote] + a), b);
      Seqs.Assoc(gap, [quote] + (v + ([quote] + a)), b);
      Seqs.Assoc(name, gap + ([quote] + (v + ([quote] + a))), b);
      Seqs.Assoc(lead, name + (gap + ([quote] + (v + ([quote] + a)))), b);
    case Bare(lead, name) =>
      Seqs.Assoc(name, a, b);
      Seqs.Assoc(lead, name + a, b);
  }

  function BodyText(e: SElem, z: string): string {
    match e.body
    case Empty => "/" + z
    case Full(content, gap) => ">" + ContentText(content, "<" + ("/" + (e.name + (gap + z))))
  }

  lemma {:induction false} CoreCat(e: SElem, a: string, b: string)
    ensures CoreText(e, a + b) == CoreText(e, a) + b
    decreases e, 1
  {
    hide AttrsText, ContentText;
    BodyCat(e, a, b);
    var x := BodyText(e, a);
    Seqs.Assoc(e.tail, x, b);
    AttrsCat(e.attrs, e.tail + x, b);
    Seqs.Assoc(e.name, AttrsText(e.attrs, e.tail + x), b);
  }

  lemma {:induction false} BodyCat(e: SElem, a: string, b: string)
    ensures BodyText(e, a + b) == BodyText(e, a) + b
    decreases e, 0
  {
    hide ContentText;
    match e.body
    case Empty => Seqs.Assoc("/", a, b);
    case Full(content, gap) =>
      var x := "<" + ("/" + (e.name + (gap + a)));
      Seqs.Assoc(gap, a, b);
      Seqs.Assoc(e.name, gap + a, b);
      Seqs.Assoc("/", e.name + (gap + a), b);
      Seqs.Assoc("<", "/" + (e.name + (gap + a)), b);
      ContentCat(content, x, b);
      Seqs.Assoc(">", ContentText(content, x), b);
  }

  lemma {:induction false} ContentCat(c: Content, a: string, b: string)
    ensures ContentText(c, a + b) == ContentText(c, a) + b
    decreases c, 0
  {
    hide CoreText, XmlReferences.TextOf;
    var v := XmlReferences.TextOf(c.text);
    match c
    case Last(_) => Seqs.Assoc(v, a, b);
    case Then(_, mark, more) =>
      var x := ContentText(more, a);
      ContentCat(more, a, b);
      MarkCat(mark, x, b);
      Seqs.Assoc("<", MarkText(mark, x), b);
      Seqs.Assoc(v, "<" + MarkText(mark, x), b);
  }

  lemma {:induction false} MarkCat(m: Mark, a: string, b: string)
    ensures MarkText(m, a + b) == MarkText(m, a) + b
    decreases m, 2
  {
    hide CoreText;
    match m
    case Child(e) =>
      Seqs.Assoc(">", a, b);
      CoreCat(e, ">" + a, b);
    case CData(data) =>
      Seqs.Assoc("]]>", a, b);
      Seqs.Assoc(data, "]]>" + a, b);
      Seqs.Assoc("![CDATA[", data + ("]]>" + a), b);
    case Comment(note) =>
      Seqs.Assoc("-->", a, b);
      Seqs.Assoc(note, "-->" + a, b);
      Seqs.Assoc("!--", note + ("-->" + a), b);
  }

  lemma {:induction false} NotesCat(notes: seq<(string, string)>, a: string, b: string)
    ensures NotesText(notes, a + b) == NotesText(notes, a) + b
    decreases |notes|
  {
    if notes != [] {
      var n, x := notes[0], NotesText(notes[1..], a);
      NotesCat(notes[1..], a, b);
      Seqs.Assoc(n.1, x, b);
      Seqs.Assoc("-->", n.1 + x, b);
      Seqs.Assoc(n.0, "-->" + (n.1 + x), b);
      Seqs.Assoc("!--", n.0 + ("-->" + (n.1 + x)), b);
      Seqs.Assoc("<", "!--" + (n.0 + ("-->" + (n.1 + x))), b);
    }
  }

  /** The buffer without the last character of the document. */
  lemma Shortened(d: SDoc) returns (z: string, last: char)
    ensures DocText(d) == d.before + NotesText(d.notes, "<" + CoreText(d.root, z)) + [last]
    ensures if d.after == "" then z == "" && last == '>' else z == ">" + d.after[..|d.after| - 1]
  {
    hide NotesText, CoreText;
    if d.after == "" {
      z, last := "", '>';
    } else {
      z, last := ">" + d.after[..|d.after| - 1], d.after[|d.after| - 1];
      assert d.after == d.after[..|d.after| - 1] + [last];
    }
    assert ">" + d.after == z + [last];
    var x := CoreText(d.root, z);
    CoreCat(d.root, z, [last]);
    Seqs.Assoc("<", x, [last]);
    NotesCat(d.notes, "<" + x, [last]);
    Seqs.Assoc(d.before, NotesText(d.notes, "<" + x), [last]);
  }

  /** Comments in front of the root change nothing. */
  lemma {:induction false} ReadNotes(notes: seq<(string, string)>, q: string, last: char)
    requires NotesOk(notes)
    ensures var p := NotesText(notes, "<" + q); p != "" && p[0] == '<'
    ensures ParseFrom(NotesText(notes, "<" + q)[1..], last, Start) == ParseFrom(q, last, Start)
    decreases |notes|
  {
    hide ParseFrom, Lacks;
    var p := NotesText(notes, "<" + q);
    if notes == [] {
      assert p[1..] == q;
    } else {
      var n, rest := notes[0], NotesText(notes[1..], "<" + q);
      ReadNotes(notes[1..], q, last);
      CommentGone(n.0, n.1 + rest, last, Start);
      assert p[1..] == "!--" + (n.0 + ("-->" + (n.1 + rest)));
      SpanToCat(n.1, '<', rest);
      assert rest == "<" + rest[1..];
      Drop1(n.1, '<', rest[1..]);
      hide NotesText;
    }
  }

  lemma {:induction false} UpToNulSame(s: string)
    requires NulFree(s)
    ensures UpToNul(s) == s
    decreases |s|
  {
    if s != "" {
      UpToNulSame(s[1..]);
    }
  }

  lemma ReadRest(e: SElem, after: string, last: char)
    requires ElemOk(e) && '<' !in after
    ensures ParseFrom(CoreText(e, ">" + after), last, Start) == Ok(ElemMeans(e))
  {
    hide CoreText, ElemMeans, ParseFrom;
    ReadElem(e, after, last, Start);
    assert WithElem(Start, ElemMeans(e)) == Done(ElemMeans(e));
    assert after + "" == after;
    SpanToCat(after, '<', "");
  }

  /** Every document is read as the tree it means. */
  lemma ReadDocument(d: SDoc)
    requires DocOk(d)
    ensures Parse(DocText(d)) == Ok(ElemMeans(d.root))
  {
    hide NotesText, CoreText, ElemMeans, ParseFrom, ElemOk, NotesOk;
    var z, last := Shortened(d);
    var x := NotesText(d.notes, "<" + CoreText(d.root, z));
    var p := d.before + x;
    Ends(p, last);
    ReadNotes(d.notes, CoreText(d.root, z), last);
    assert NulFree(p) by {
      assert forall i :: 0 <= i < |p| ==> DocText(d)[i] == p[i];
    }
    UpToNulSame(p);
    assert (p + [last])[0] == if d.before == "" then x[0] else d.before[0];
    SpanToCat(d.before, '<', x);
    Drop1(d.before, '<', x[1..]);
    assert x == ['<'] + x[1..];
    if d.after == "" {
      ReadRootElem(d.root);
    } else {
      ReadRest(d.root, d.after[..|d.after| - 1], last);
    }
  }

  // ----- what is not read -----

  /** The end tag of an element that is not the innermost one. */
  lemma WrongEnd(name: string, gap: string, rest: string, c: char, st: Stack)
    requires IsName(name) && White(gap) && (st.On? ==> st.top.name != name)
    ensures ParseFrom("/" + (name + (gap + (">" + rest))), c, st) == Failed
  {
    hide ParseText, IsName, White, Span, Past, ReadMarkup;
    var p := name + (gap + (">" + rest));
    SlashIs(p, c, st);
    EndSpan(name, gap, rest);
  }

  /** Nothing but text is left, and an element is open, or none was. */
  lemma NoEnd(rest: string, c: char, st: Stack)
    requires '<' !in rest && !st.Done?
    ensures ParseText(rest, c, st) == Failed
  {
    assert rest + "" == rest;
    SpanToCat(rest, '<', "");
  }

  /** A second root. */
  lemma SecondRoot(p: string, c: char, st: Stack)
    requires p != "" && IsNameStart(p[0]) && st.Done?
    ensures ParseFrom(p, c, st) == Failed
  {
  }

  lemma {:induction false} NotFound(p: string, w: string)
    requires Lacks(p, w)
    ensures Find(p, w) == Nowhere
    decreases |p|
  {
    assert p[0..] == p;
    if p != "" {
      LacksLess(p, w);
      NotFound(p[1..], w);
    }
  }

  /** A comment or a section that does not end. */
  lemma NeverEnds(p: string, c: char, st: Stack)
    ensures Lacks(p, "--") ==> ParseFrom("!--" + p, c, st) == Failed
    ensures Lacks(p, "]]>") ==> ParseFrom("![CDATA[" + p, c, st) == Failed
  {
    hide ReadMarkup, Find, Lacks;
    MarkupIs(p, c, st);
    if Lacks(p, "--") {
      NotFound(p, "--");
    }
    if Lacks(p, "]]>") {
      NotFound(p, "]]>");
    }
  }

  /** Two hyphens in a comment that do not end it. */
  lemma HyphensInside(note: string, rest: string, c: char, st: Stack)
    requires Lacks(note + "-", "--") && (if rest == "" then c != '>' else rest[0] != '>')
    ensures ParseFrom("!--" + (note + ("--" + rest)), c, st) == Failed
  {
    hide ReadMarkup, Find, Lacks;
    var p := note + ("--" + rest);
    MarkupIs(p, c, st);
    NoteFound(note, rest);
    assert p[|note| + 2..] == rest;
  }

  /** A slash in a start tag that does not end it. */
  lemma SlashAlone(x: string, c: char, o: Stack)
    requires o.On? && (if x == "" then c != '>' else x[0] != '>')
    ensures EndOpen("/" + x, c, o) == BadTag
  {
    assert ("/" + x)[1..] == x;
  }

  /** What stands behind a '<' begins no markup. */
  lemma NoMarkup(p: string, c: char, st: Stack)
    requires p == "" || (!IsNameStart(p[0]) && p[0] != '/' && p[0] != '!' && p[0] != '?')
    ensures ParseFrom(p, c, st) == Failed
  {
    hide ReadOpen, ReadClose, ReadComment, ReadCData;
  }

  /** No tag at all. */
  lemma NoTag(s: string)
    requires '<' !in s && (s != "" ==> s[0] != 0xFE as char && s[0] != 0xFF as char)
    ensures Parse(s) == Failed
  {
    if s != "" {
      var p := UpToNul(s[..|s| - 1]);
      UpToNulIn(s[..|s| - 1]);
      assert p + "" == p;
      assert forall i :: 0 <= i < |p| ==> p[i] in p;
      SpanToCat(p, '<', "");
    }
  }

  lemma {:induction false} UpToNulIn(s: string)
    ensures forall c :: c in UpToNul(s) ==> c in s
    decreases |s|
  {
    if s != "" && s[0] != '\0' {
      UpToNulIn(s[1..]);
      assert forall c :: c in s[1..] ==> c in s;
    }
  }

  /** A value whose quote is not closed. */
  lemma QuoteOpen(gap: string, quote: char, v: string)
    requires GapOk(gap) && (quote == '\"' || quote == '\'') && quote !in v
    ensures ReadValue(gap + ([quote] + v)) == BadValue
  {
    GapSkipped(gap, quote, v);
    assert v + "" == v;
    SpanToCat(v, quote, "");
    hide ReadValue;
  }

  // ----- spellings that mean the same -----

  /** An empty-element tag is a start tag and an end tag with nothing between them. */
  lemma EmptyTagSame(e: SElem, gap: string, rest: string, last: char, st: Stack)
    requires ElemOk(e) && e.body.Empty? && White(gap) && !st.Done?
    ensures var f := e.(body := Full(Last([]), gap));
      ElemOk(f) && ParseFrom(CoreText(e, ">" + rest), last, st) == ParseFrom(CoreText(f, ">" + rest), last, st)
  {
    hide CoreText, ParseFrom, ParseText, AttrOk;
    var f := e.(body := Full(Last([]), gap));
    assert ContentOk(Last([]));
    ReadElem(e, rest, last, st);
    ReadElem(f, rest, last, st);
  }

  /** A value between single quotes is the same between double quotes. */
  lemma QuotesAlike(gap: string, v: string, rest: string)
    requires GapOk(gap) && '\"' !in v && '\'' !in v
    ensures ReadValue(gap + (['\''] + (v + (['\''] + rest)))) == ReadValue(gap + (['\"'] + (v + (['\"'] + rest))))
  {
    hide ReadValue, GapOk;
    GapSkipped(gap, '\'', v + (['\''] + rest));
    GapSkipped(gap, '\"', v + (['\"'] + rest));
    SpanToCat(v, '\'', ['\''] + rest);
    SpanToCat(v, '\"', ['\"'] + rest);
    Drop1(v, '\'', rest);
    Drop1(v, '\"', rest);
  }

  // ----- the parser over tags in memory -----

  /** Every document is parsed into new tags that show the tree it means. */
  method ParseSpelled(d: SDoc) returns (p: XmlParser.Parser, o: XmlParser.Outcome)
    requires DocOk(d)
    ensures fresh(p) && XmlDocument.Built(p, o, ElemMeans(d.root))
  {
    hide *;
    ReadDocument(d);
    p, o := XmlParser.ParseStr(DocText(d));
    XmlDocument.BuiltIs(p, o, ElemMeans(d.root), Parse(DocText(d)));
  }
}
