/**
 `ezxml_toxml_r` on its growing buffer.
 */
module XmlWriter {
  import opened XmlAttr
  import Seqs
  import opened Arith
  import opened CText
  import opened XmlText
  import opened XmlEncode
  import opened XmlTree
  import opened XmlTags
  import XmlIndex

  /** `while (*len + room > *max) *s = realloc(*s, *max += EZXML_BUFSIZE);` */
  method Room(s: array<char>, len: nat, room: nat) returns (r: array<char>)
    requires len <= s.Length
    ensures len + room <= r.Length && r[..len] == s[..len] && (r == s || fresh(r))
  {
    var max := s.Length;
    while len + room > max {
      max := max + BUFSIZE;
    }
    r := s;
    if max > s.Length {
      r := new char[max];
      forall i | 0 <= i < len {
        r[i] := s[i];
      }
    }
  }

  /** `*len += sprintf(*s + *len, ...)`, which writes a terminator, too. */
  method Sprintf(s: array<char>, len: nat, w: string, ghost done: string) returns (n: nat)
    requires len + |w| < s.Length && s[..len] == done
    modifies s
    ensures n == len + |w| && s[..n] == done + w
  {
    Write(s, len, w);
    n := len + |w|;
    ghost var b := s[..];
    assert b[..len] == done;
    assert s[..n] == done + w;
    s[n] := '\0';
    assert s[..n] == b[..n];
  }

  /** All the strings of an element are C strings. */
  predicate CStrings(e: Elem) {
    && NulFree(e.name) && NulFree(e.txt) && CStringsIn(e.kids)
    && forall i :: 0 <= i < |e.attrs| ==> NulFree(e.attrs[i].name) && NulFree(e.attrs[i].value)
  }

  predicate CStringsIn(kids: Kids) {
    kids.Kid? ==> CStrings(kids.elem) && CStringsIn(kids.rest)
  }

  /** Encoded text behind what has been written. */
  method PutText(s: array<char>, len: nat, txt: string, a: bool, ghost done: string) returns (r: array<char>, n: nat)
    requires len <= s.Length && s[..len] == done && NulFree(txt)
    modifies s
    ensures n <= r.Length && r[..n] == done + Encode(txt, a) && (r == s || fresh(r))
    ensures n + 4 <= r.Length || (n == len && r == s)
  {
    r, n := AmpEncode(txt, s, len, a);
  }

  /** One attribute; the last quote and what follows the attributes fit without asking for more room. */
  method PutAttr(s: array<char>, len: nat, a: Attr, ghost done: string) returns (r: array<char>, n: nat)
    requires len <= s.Length && s[..len] == done && NulFree(a.value)
    modifies s
    ensures n + 2 <= r.Length && r[..n] == done + PrintAttr(a) && (r == s || fresh(r))
  {
    hide *;
    r := Room(s, len, |a.name| + 7);
    n := Sprintf(r, len, " " + a.name + "=\"", done);
    ghost var d := done + (" " + a.name + "=\"");
    r, n := PutText(r, n, a.value, true, d);
    n := Sprintf(r, n, "\"", d + Encode(a.value, true));
    AttrIs(done, a);
  }

  lemma AttrIs(done: string, a: Attr)
    ensures done + PrintAttr(a) == done + (" " + a.name + "=\"") + Encode(a.value, true) + "\""
  {
  }

  /** `ezxml_attr`: the first attribute of that name. */
  method FirstAttr(attrs: seq<Attr>, name: string, i: nat) returns (j: nat)
    requires i < |attrs| && attrs[i].name == name
    ensures j <= i && attrs[j].name == name && forall k :: 0 <= k < j ==> attrs[k].name != name
  {
    j := 0;
    while attrs[j].name != name
      invariant j <= i && forall k :: 0 <= k < j ==> attrs[k].name != name
      decreases i - j
    {
      j := j + 1;
    }
  }

  function NamesOf(attrs: seq<Attr>): set<string> {
    set a <- attrs :: a.name
  }

  lemma PrintAttrsStep(attrs: seq<Attr>, i: nat)
    requires i < |attrs|
    ensures PrintAttrs(attrs[i..], NamesOf(attrs[..i]))
         == (if attrs[i].name in NamesOf(attrs[..i]) then "" else PrintAttr(attrs[i]))
            + PrintAttrs(attrs[i + 1..], NamesOf(attrs[..i + 1]))
  {
    assert attrs[i..][1..] == attrs[i + 1..];
    assert attrs[..i + 1] == attrs[..i] + [attrs[i]];
    assert NamesOf(attrs[..i + 1]) == NamesOf(attrs[..i]) + {attrs[i].name} by {
      assert attrs[i] in attrs[..i + 1];
      assert forall a <- attrs[..i] :: a in attrs[..i + 1];
    }
    if attrs[i].name in NamesOf(attrs[..i]) {
      assert NamesOf(attrs[..i + 1]) == NamesOf(attrs[..i]);
    }
  }

  /** What is written for the `i`th attribute. */
  function AttrText(attrs: seq<Attr>, i: nat): string
    requires i < |attrs|
  {
    if attrs[i].name in NamesOf(attrs[..i]) then "" else PrintAttr(attrs[i])
  }

  method AttrTurn(s: array<char>, len: nat, attrs: seq<Attr>, i: nat, ghost done: string)
    returns (r: array<char>, n: nat)
    requires len + 2 <= s.Length && s[..len] == done && i < |attrs| && NulFree(attrs[i].value)
    modifies s
    ensures n + 2 <= r.Length && r[..n] == done + AttrText(attrs, i) && (r == s || fresh(r))
  {
    r, n := s, len;
    var j := FirstAttr(attrs, attrs[i].name, i);
    if j == i {
      NotSeen(attrs, i);
      r, n := PutAttr(r, n, attrs[i], done);
    } else {
      assert attrs[j] in attrs[..i];
      assert done + "" == done;
    }
  }

  /** What is left to be written from the `i`th attribute on. */
  function Left(attrs: seq<Attr>, i: nat): string
    requires i <= |attrs|
  {
    PrintAttrs(attrs[i..], NamesOf(attrs[..i]))
  }

  lemma LeftEnds(attrs: seq<Attr>)
    ensures Left(attrs, 0) == PrintAttrs(attrs, {}) && Left(attrs, |attrs|) == ""
  {
    assert attrs[0..] == attrs && NamesOf(attrs[..0]) == {};
  }

  lemma LeftStep(attrs: seq<Attr>, i: nat, done: string)
    requires i < |attrs|
    ensures done + Left(attrs, i) == done + AttrText(attrs, i) + Left(attrs, i + 1)
  {
    PrintAttrsStep(attrs, i);
  }

  /** The attributes of a start tag. */
  method PutAttrs(s: array<char>, len: nat, attrs: seq<Attr>, ghost done: string) returns (r: array<char>, n: nat)
    requires len + 2 <= s.Length && s[..len] == done
    requires forall i :: 0 <= i < |attrs| ==> NulFree(attrs[i].name) && NulFree(attrs[i].value)
    modifies s
    ensures n + 2 <= r.Length && r[..n] == done + PrintAttrs(attrs, {}) && (r == s || fresh(r))
  {
    hide *;
    r, n := s, len;
    var i := 0;
    ghost var w := done;
    LeftEnds(attrs);
    while i < |attrs|
      invariant i <= |attrs| && n + 2 <= r.Length && r[..n] == w && (r == s || fresh(r))
      invariant w + Left(attrs, i) == done + PrintAttrs(attrs, {})
    {
      LeftStep(attrs, i, w);
      r, n := AttrTurn(r, n, attrs, i, w);
      w := r[..n];
      i := i + 1;
    }
    assert w + "" == w;
  }

  lemma NotSeen(attrs: seq<Attr>, i: nat)
    requires i < |attrs| && forall k :: 0 <= k < i ==> attrs[k].name != attrs[i].name
    ensures attrs[i].name !in NamesOf(attrs[..i])
  {
  }

  /** The start tag. */
  method PutOpen(s: array<char>, len: nat, t: XmlIndex.Tag, ghost e: Elem, ghost done: string)
    returns (r: array<char>, n: nat)
    requires len <= s.Length && s[..len] == done && CStrings(e) && t.name == e.name && t.attrs == e.attrs
    modifies s
    ensures n <= r.Length && r[..n] == done + PrintOpen(e) && (r == s || fresh(r))
  {
    r := Room(s, len, |t.name| + 4);
    n := Sprintf(r, len, "<" + t.name, done);
    ghost var d := done + ("<" + e.name);
    r, n := PutAttrs(r, n, t.attrs, d);
    n := Sprintf(r, n, ">", d + PrintAttrs(e.attrs, {}));
    OpenIs(done, e);
  }

  lemma OpenIs(done: string, e: Elem)
    ensures done + PrintOpen(e) == done + ("<" + e.name) + PrintAttrs(e.attrs, {}) + ">"
  {
  }

  /** The end tag. */
  method PutClose(s: array<char>, len: nat, t: XmlIndex.Tag, ghost e: Elem, ghost done: string)
    returns (r: array<char>, n: nat)
    requires len <= s.Length && s[..len] == done && t.name == e.name
    modifies s
    ensures n <= r.Length && r[..n] == done + PrintClose(e) && (r == s || fresh(r))
  {
    r := Room(s, len, |t.name| + 4);
    n := Sprintf(r, len, "</" + t.name + ">", done);
  }

  lemma PrintKidsIs(done: string, kids: Kids, txt: string, start: nat)
    requires kids.Kid? && start <= |txt|
    ensures done + PrintKids(kids, txt, start)
         == done + Encode(Cut(txt, start, kids.off), false) + PrintElem(kids.elem)
            + PrintKids(kids.rest, txt, Min(kids.off, |txt|))
  {
    Seqs.Assoc4(done, Encode(Cut(txt, start, kids.off), false), PrintElem(kids.elem),
      PrintKids(kids.rest, txt, Min(kids.off, |txt|)));
  }

  lemma CutNulFree(txt: string, start: nat, off: nat)
    requires start <= |txt| && NulFree(txt)
    ensures NulFree(Cut(txt, start, off)) && NulFree(txt[start..])
  {
  }

  /** A list of children in document order. */
  lemma AlongOrdered(s: seq<XmlIndex.Tag>)
    requires XmlIndex.OrderedChain(s) && s != []
    ensures XmlIndex.OrderedChain(s[1..]) && s[0].ordered == XmlIndex.At(s[1..], 0)
  {
    assert s[0].ordered == XmlIndex.At(s, 1);
    forall i | 0 <= i < |s| - 1
      ensures s[1..][i].ordered == XmlIndex.At(s[1..], i + 1)
    {
      assert s[i + 1].ordered == XmlIndex.At(s, i + 2);
    }
  }

  lemma ChildrenOrdered(t: XmlIndex.Tag, all: set<XmlIndex.Tag>)
    requires Indexes(all) && t in all
    ensures t.child == XmlIndex.At(t.kids, 0) && XmlIndex.OrderedChain(t.kids)
  {
  }

  /** `ezxml_toxml_r`: the children from `xml` on, and the text around them; `list` is the rest of the list. */
  method PutKids(s: array<char>, len: nat, xml: XmlIndex.Tag?, txt: string, start: nat, ghost list: seq<XmlIndex.Tag>,
                 ghost kids: Kids, ghost c: set<XmlIndex.Tag>, ghost all: set<XmlIndex.Tag>, ghost done: string)
    returns (r: array<char>, n: nat)
    requires len <= s.Length && s[..len] == done && start <= |txt| && NulFree(txt) && CStringsIn(kids)
    requires xml == XmlIndex.At(list, 0) && XmlIndex.OrderedChain(list) && ShowKids(list, kids, c) && c <= all
      && Indexes(all)
    modifies s
    ensures n <= r.Length && r[..n] == done + PrintKids(kids, txt, start) && (r == s || fresh(r))
    decreases kids
  {
    hide XmlIndex.OrderedChain, Indexes, Shows, Encode, NulFree;
    CutNulFree(txt, start, if xml == null then 0 else xml.off);
    if xml == null {
      r, n := PutText(s, len, txt[start..], false, done);
    } else {
      AlongOrdered(list);
      r, n := PutText(s, len, Cut(txt, start, xml.off), false, done);
      ghost var d := done + Encode(Cut(txt, start, xml.off), false);
      r, n := PutElem(r, n, xml, kids.elem, c, all, d);
      r, n := PutKids(r, n, xml.ordered, txt, Min(xml.off, |txt|), list[1..], kids.rest, c, all,
        d + PrintElem(kids.elem));
      PrintKidsIs(done, kids, txt, start);
    }
  }

  /** A tag. */
  method PutElem(s: array<char>, len: nat, t: XmlIndex.Tag, ghost e: Elem, ghost c: set<XmlIndex.Tag>,
                 ghost all: set<XmlIndex.Tag>, ghost done: string) returns (r: array<char>, n: nat)
    requires len <= s.Length && s[..len] == done && CStrings(e) && Shows(t, e, c) && c <= all && Indexes(all)
    modifies s
    ensures n <= r.Length && r[..n] == done + PrintElem(e) && (r == s || fresh(r))
    decreases e
  {
    hide Indexes, XmlIndex.OrderedChain, PrintOpen, PrintClose, PrintKids, ShowKids;
    ChildrenOrdered(t, all);
    r, n := PutOpen(s, len, t, e, done);
    r, n := PutKids(r, n, t.child, t.txt, 0, t.kids, e.kids, c, all, done + PrintOpen(e));
    r, n := PutClose(r, n, t, e, done + PrintOpen(e) + PrintKids(e.kids, e.txt, 0));
    Seqs.Assoc4(done, PrintOpen(e), PrintKids(e.kids, e.txt, 0), PrintClose(e));
  }

  /** `ezxml_toxml` of a root tag that shows `e`, every tag keeping its children in its chains. */
  method ToXml(root: XmlIndex.Tag, ghost e: Elem, ghost c: set<XmlIndex.Tag>, ghost all: set<XmlIndex.Tag>)
    returns (s: array<char>, n: nat)
    requires Shows(root, e, c) && c <= all && Indexes(all) && CStrings(e)
    ensures fresh(s) && n <= s.Length && s[..n] == PrintElem(e)
  {
    var buf := new char[BUFSIZE];
    s, n := PutElem(buf, 0, root, e, c, all, "");
  }
}
