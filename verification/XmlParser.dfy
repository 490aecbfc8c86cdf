/**
 `ezxml_parse_str` as the loop it is, over tags in memory: one pass over the
 text, the innermost open tag moved by every tag of the text, each new tag put
 into the three chains of its parent.
 */
module XmlParser {
  import opened XmlAttr
  import opened CText
  import opened XmlEncode
  import opened XmlText
  import opened XmlTree
  import opened XmlReader
  import opened XmlLinks
  import opened XmlTags
  import XmlIndex
  import XmlCut

  /** Offsets that lie within the text. */
  lemma {:induction false} KidsWithin(s: seq<XmlIndex.Tag>, kids: Kids, c: set<XmlIndex.Tag>, from: nat, to: nat)
    requires ShowKids(s, kids, c) && TidyKids(kids, from, to)
    ensures forall t <- s :: t.off <= to
    decreases kids
  {
    if kids.Kid? {
      KidsWithin(s[1..], kids.rest, c, kids.off, to);
      assert s == [s[0]] + s[1..];
    }
  }

  /**
   The open tags, from the innermost one `t` outwards, are those of the stack; `p` are the open tags, `c` the closed
   ones, `inner` is the open child of `t`.
   */
  ghost predicate Stands(st: Stack, t: XmlIndex.Tag?, inner: XmlIndex.Tag?, root: XmlIndex.Tag?, p: set<XmlIndex.Tag>,
                         c: set<XmlIndex.Tag>)
    reads p`attrs, p`txt, p`kids, p`off, p`parent, c`attrs, c`txt, c`kids, c`off
    decreases st
  {
    match st
    case Start => t == null && root == null
    case Done(e) => t == null && root != null && Shows(root, e, c)
    case On(top, below) =>
      && t != null && t in p && t !in c && t.name == top.name && t.attrs == top.attrs && t.txt == top.txt
      && t.off == top.off && !below.Done?
      && (if inner == null then ShowKids(t.kids, top.kids, c)
          else t.kids != [] && t.kids[|t.kids| - 1] == inner && ShowKids(t.kids[..|t.kids| - 1], top.kids, c))
      && (if below.On? then t.parent != null else t.parent == null && root == t)
      && (if below.On? then Stands(below, t.parent, t, root, p - {t}, c) else true)
  }

  /** What `Stands` says of the innermost open tag. */
  ghost predicate Top(st: Stack, t: XmlIndex.Tag, s: seq<XmlIndex.Tag>, root: XmlIndex.Tag?, p: set<XmlIndex.Tag>,
                      c: set<XmlIndex.Tag>)
    requires st.On?
    reads t`attrs, t`txt, t`off, t`parent, (p - {t})`attrs, (p - {t})`txt, (p - {t})`kids, (p - {t})`off,
      (p - {t})`parent
    reads c`attrs, c`txt, c`kids, c`off
  {
    && t in p && t !in c && t.name == st.top.name && t.attrs == st.top.attrs && t.txt == st.top.txt
    && t.off == st.top.off && !st.below.Done? && ShowKids(s, st.top.kids, c)
    && (if st.below.On? then t.parent != null else t.parent == null && root == t)
    && (if st.below.On? then Stands(st.below, t.parent, t, root, p - {t}, c) else true)
  }

  lemma Topped(st: Stack, t: XmlIndex.Tag?, root: XmlIndex.Tag?, p: set<XmlIndex.Tag>, c: set<XmlIndex.Tag>)
    requires st.On? && Stands(st, t, null, root, p, c)
    ensures t != null && t in p && Top(st, t, t.kids, root, p, c)
  {
  }

  lemma TopStands(st: Stack, t: XmlIndex.Tag, s: seq<XmlIndex.Tag>, inner: XmlIndex.Tag?, root: XmlIndex.Tag?,
                  p: set<XmlIndex.Tag>, c: set<XmlIndex.Tag>)
    requires st.On? && Top(st, t, s, root, p, c) && t.kids == if inner == null then s else s + [inner]
    ensures Stands(st, t, inner, root, p, c)
  {
    if inner != null {
      assert t.kids[..|t.kids| - 1] == s;
    }
  }

  lemma {:induction false} StandsMore(st: Stack, t: XmlIndex.Tag?, inner: XmlIndex.Tag?, root: XmlIndex.Tag?,
                                      p: set<XmlIndex.Tag>, c: set<XmlIndex.Tag>, d: set<XmlIndex.Tag>)
    requires st.On? && Stands(st, t, inner, root, p, c) && c <= d && p !! d
    ensures Stands(st, t, inner, root, p, d)
    decreases st
  {
    if inner == null {
      ShowKidsMore(t.kids, st.top.kids, c, d);
    } else {
      ShowKidsMore(t.kids[..|t.kids| - 1], st.top.kids, c, d);
    }
    if st.below.On? {
      StandsMore(st.below, t.parent, t, root, p - {t}, c, d);
    }
  }

  /** `ezxml_add_child` of a new tag behind all children. */
  method AppendIn(xml: XmlIndex.Tag, dest: XmlIndex.Tag, off: nat, ghost all: set<XmlIndex.Tag>)
    requires Indexes(all) && dest in all && xml !in all && xml.kids == [] && xml.child == null
    requires forall k <- dest.kids :: k.off <= off
    modifies xml`off, xml`parent, xml`ordered, xml`next, xml`sibling, dest`child, dest`kids
    modifies dest.kids`ordered, dest.kids`next, dest.kids`sibling
    ensures Indexes(all + {xml}) && dest.kids == old(dest.kids) + [xml] && xml.off == off && xml.parent == dest
  {
    hide XmlIndex.Indexed;
    ghost var kids := dest.kids;
    forall t | t in all && t != dest
      ensures Untouched(t, kids, xml)
    {
      Parents(t);
      Parents(dest);
    }
    XmlCut.Append(xml, dest, off);
    XmlCut.Childless(xml);
    Parents(dest);
    forall t | t in all + {xml}
      ensures (forall k <- t.kids :: k in all + {xml}) && XmlIndex.Indexed(t)
    {
      if t == xml {
        assert XmlIndex.Indexed(t);
      } else if t == dest {
        assert XmlIndex.Indexed(t);
      } else {
        assert old(XmlIndex.Indexed(t)) && t.kids == old(t.kids) && t.child == old(t.child);
        assert Untouched(t, kids, xml);
        forall k | k in t.kids
          ensures k.ordered == old(k.ordered) && k.off == old(k.off) && k.parent == old(k.parent)
          ensures k.next == old(k.next) && k.sibling == old(k.sibling)
        {
        }
        assert XmlIndex.Indexed(t);
      }
    }
  }

  ghost predicate Untouched(t: XmlIndex.Tag, kids: seq<XmlIndex.Tag>, xml: XmlIndex.Tag)
    reads t`kids
  {
    forall k <- t.kids :: k !in kids && k != xml
  }

  lemma KidsIn(all: set<XmlIndex.Tag>, t: XmlIndex.Tag)
    requires Indexes(all) && t in all
    ensures forall k <- t.kids :: k in all
  {
  }

  lemma Parents(t: XmlIndex.Tag)
    requires XmlIndex.Indexed(t)
    ensures forall k <- t.kids :: k.parent == t
  {
  }

  lemma Alone(xml: XmlIndex.Tag, all: set<XmlIndex.Tag>)
    requires Indexes(all) && xml !in all && xml.kids == [] && xml.child == null
    ensures Indexes(all + {xml})
  {
    hide XmlIndex.Indexed;
    XmlCut.Childless(xml);
  }

  lemma WithinText(st: Stack, t: XmlIndex.Tag, root: XmlIndex.Tag?, p: set<XmlIndex.Tag>, c: set<XmlIndex.Tag>)
    requires st.On? && Top(st, t, t.kids, root, p, c) && TidyStack(st)
    ensures forall k <- t.kids :: k.off <= |t.txt|
  {
    KidsWithin(t.kids, st.top.kids, c, 0, |t.txt|);
  }

  /** A new tag is the innermost open one. */
  lemma FirstOpen(st: Stack, xml: XmlIndex.Tag, cur: XmlIndex.Tag?, root: XmlIndex.Tag?, p: set<XmlIndex.Tag>,
                  c: set<XmlIndex.Tag>, name: string, attrs: seq<Attr>)
    requires !st.Done? && xml !in p && xml !in c && xml.name == name && xml.attrs == attrs && xml.txt == ""
    requires xml.kids == [] && xml.parent == cur && (cur == null <==> st.Start?)
    requires if st.On? then Stands(st, cur, xml, root, p, c) && xml.off == |st.top.txt| else xml.off == 0 && root == xml
    ensures Stands(OpenTag(st, name, attrs), xml, null, root, p + {xml}, c)
  {
    assert p + {xml} - {xml} == p;
  }

  /** The child enters the chains of the innermost open tag. */
  method Attach(xml: XmlIndex.Tag, cur: XmlIndex.Tag, ghost root: XmlIndex.Tag?, ghost st: Stack,
                ghost all: set<XmlIndex.Tag>, ghost closed: set<XmlIndex.Tag>)
    requires st.On? && TidyStack(st) && Indexes(all) && closed <= all
    requires Stands(st, cur, null, root, all - closed, closed)
    requires xml !in all && xml.kids == [] && xml.child == null
    modifies xml`off, xml`parent, xml`ordered, xml`next, xml`sibling, cur`child, cur`kids
    modifies cur.kids`ordered, cur.kids`next, cur.kids`sibling
    ensures Indexes(all + {xml}) && Stands(st, cur, xml, root, all - closed, closed)
    ensures xml.off == |st.top.txt| && xml.parent == cur
  {
    hide XmlIndex.Indexed, TidyStack, TidyKids, Stands, Top, ShowKids, Shows, Indexes;
    ghost var p := all - closed;
    Topped(st, cur, root, p, closed);
    WithinText(st, cur, root, p, closed);
    SameText(st, cur, cur.kids, root, p, closed);
    ghost var kids := cur.kids;
    AppendIn(xml, cur, |cur.txt|, all);
    TopStands(st, cur, kids, xml, root, p, closed);
  }

  lemma SameText(st: Stack, t: XmlIndex.Tag, s: seq<XmlIndex.Tag>, root: XmlIndex.Tag?, p: set<XmlIndex.Tag>,
                 c: set<XmlIndex.Tag>)
    requires st.On? && Top(st, t, s, root, p, c)
    ensures t.txt == st.top.txt
  {
  }

  // ----- the parser -----

  class Parser {
    var root: XmlIndex.Tag?
    var cur: XmlIndex.Tag?
    ghost var st: Stack
    ghost var all: set<XmlIndex.Tag>
    ghost var closed: set<XmlIndex.Tag>

    constructor ()
      ensures Valid() && st == Start && all == {}
    {
      root, cur, st, all, closed := null, null, Start, {}, {};
    }

    ghost predicate Valid()
      reads this, all`child, all`kids, all`ordered, all`off, all`parent, all`next, all`sibling, all`attrs, all`txt
    {
      && closed <= all && Indexes(all) && TidyStack(st)
      && Stands(st, cur, null, root, all - closed, closed)
      && (root != null ==> root in all) && (root == null <==> st.Start?)
    }

    lemma Now()
      requires Valid()
      ensures (cur != null <==> st.On?) && (root == null <==> st.Start?)
        && (st.On? ==> cur.name == st.top.name && cur in all)
      ensures st.On? ==> cur.txt == st.top.txt
    {
    }

    /** `ezxml_open_tag` */
    method Open(name: string, attrs: seq<Attr>)
      requires Valid() && !st.Done?
      modifies this, all`child, all`kids, all`ordered, all`next, all`sibling
      ensures Valid() && st == OpenTag(old(st), name, attrs) && old(all) <= all && fresh(all - old(all))
    {
      hide XmlIndex.Indexed, TidyStack, TidyKids, Stands, Top, ShowKids, Shows, Indexes, OpenTag;
      var xml := new XmlIndex.Tag(name);
      xml.attrs := attrs;
      TidyOpen(st, name, attrs);
      Now();
      if cur == null {
        root := xml;
        Alone(xml, all);
      } else {
        KidsIn(all, cur);
        Attach(xml, cur, root, st, all, closed);
      }
      FirstOpen(st, xml, cur, root, all - closed, closed, name, attrs);
      Enter(xml, name, attrs);
    }

    /** `root->cur = xml` */
    method Enter(xml: XmlIndex.Tag, ghost name: string, ghost attrs: seq<Attr>)
      requires closed <= all && xml !in all && Indexes(all + {xml}) && !st.Done? && TidyStack(OpenTag(st, name, attrs))
      requires root != null && root in all + {xml}
      requires Stands(OpenTag(st, name, attrs), xml, null, root, all - closed + {xml}, closed)
      modifies this`cur, this`st, this`all
      ensures Valid() && st == OpenTag(old(st), name, attrs) && all == old(all) + {xml}
    {
      hide XmlIndex.Indexed, TidyStack, TidyKids, Stands, Top, ShowKids, Shows, Indexes;
      assert all + {xml} - closed == all - closed + {xml};
      all := all + {xml};
      cur := xml;
      st := OpenTag(st, name, attrs);
    }

    /** `ezxml_close_tag` of the innermost tag */
    method Close()
      requires Valid() && st.On?
      modifies this
      ensures Valid() && st == CloseTop(old(st)) && all == old(all)
    {
      hide XmlIndex.Indexed, TidyKids, ShowKids;
      ghost var t, e, c := cur, Elem(st.top.name, st.top.attrs, st.top.txt, st.top.kids), closed;
      TidyClose(st);
      closed := closed + {t};
      ShowKidsMore(t.kids, e.kids, c, closed);
      assert Shows(t, e, closed);
      assert all - closed == all - c - {t};
      if st.below.On? {
        StandsMore(st.below, t.parent, t, root, all - closed, c, closed);
        ghost var p := t.parent;
        assert p.kids[..|p.kids| - 1] + [t] == p.kids;
        ShowKidsSnoc(p.kids[..|p.kids| - 1], st.below.top.kids, closed, t, e);
      }
      cur := cur.parent;
      st := CloseTop(st);
    }

    /** `ezxml_char_content` of decoded text */
    method Content(text: string)
      requires Valid()
      modifies this`st, all`txt
      ensures Valid() && st == CharContent(old(st), text)
    {
      hide XmlIndex.Indexed, TidyKids;
      TidyText(st, text);
      if cur != null {
        cur.txt := cur.txt + text;
      }
      st := CharContent(st, text);
    }
  }

  // ----- the markup -----

  /** What became of a piece of markup: the loop goes on, ends with the text, fails, or meets what is not modelled. */
  datatype Kind = Next | Last | Bad | Odd

  /** The markup was read, and the stack is now `st`. */
  ghost predicate Gave(k: Kind, j: nat, t: string, st: Stack, r: TagRead) {
    match r
    case GoodTag(s, q) => k.Next? && s == st && j <= |t| && q == t[j..]
    case LastTag(s) => k.Last? && s == st
    case BadTag => k.Bad?
    case OddTag => k.Odd?
  }

  /** The end of a start tag. */
  method EndAt(p: Parser, t: string, i: nat, e: char, name: string, attrs: seq<Attr>) returns (k: Kind, j: nat)
    requires p.Valid() && !p.st.Done? && i <= |t|
    modifies p, p.all
    ensures p.Valid() && old(p.all) <= p.all && fresh(p.all - old(p.all)) && (k.Next? ==> i < j)
    ensures Gave(k, j, t, p.st, EndOpen(t[i..], e, OpenTag(old(p.st), name, attrs)))
  {
    hide Parser.Valid, CloseTop;
    j := i;
    if j == |t| {
      if e != '>' {
        return Bad, j;
      }
      p.Open(name, attrs);
      return Last, j;
    }
    XmlReader.Next(t, j);
    j := j + 1;
    if t[i] == '>' {
      p.Open(name, attrs);
      k := Next;
    } else if (j == |t| && e == '>') || (j < |t| && t[j] == '>') {
      p.Open(name, attrs);
      p.Close();
      k := if j == |t| then Last else Next;
      if j < |t| {
        assert t[i..][2..] == t[j + 1..];
        j := j + 1;
      }
    } else {
      k := Bad;
    }
  }

  /** A start tag whose name begins at `i`. */
  method OpenAt(p: Parser, t: string, i: nat, e: char) returns (k: Kind, j: nat)
    requires p.Valid() && i <= |t|
    modifies p, p.all
    ensures p.Valid() && old(p.all) <= p.all && fresh(p.all - old(p.all)) && (k.Next? ==> i < j)
    ensures Gave(k, j, t, p.st, ReadOpen(t[i..], e, old(p.st)))
  {
    hide Parser.Valid, EndOpen, OpenTag, Span, Past, ReadAttrs;
    j := i;
    p.Now();
    if p.cur == null && p.root != null {
      return Bad, j;    // markup outside of root element
    }
    var l := CSpan(t, i, EndsName);
    var name := t[i..l];
    ghost var n := Span(t[i..], EndsName);
    assert t[i..][n..] == t[l..] && t[i..][..n] == name;
    l := CSpan(t, l, NoSpace);
    var a;
    a, j := AttrsAt(t, l);
    match a {
      case BadAttrs => k := Bad;
      case OddAttrs => k := Odd;
      case Attrs(attrs, q) => k, j := EndAt(p, t, j, e, name, attrs);
    }
  }

  /** An end tag whose name begins at `i`. */
  method CloseAt(p: Parser, t: string, i: nat, e: char) returns (k: Kind, j: nat)
    requires p.Valid() && i <= |t|
    modifies p, p.all
    ensures p.Valid() && old(p.all) <= p.all && fresh(p.all - old(p.all)) && (k.Next? ==> i <= j)
    ensures Gave(k, j, t, p.st, ReadClose(t[i..], e, old(p.st)))
  {
    hide Parser.Valid, CloseTop, Span, IsSpace;
    j := CSpan(t, i, EndsClosing);
    p.Now();
    if (j == |t| && e != '>') || p.cur == null || p.cur.name != t[i..j] {
      return Bad, j;
    }
    p.Close();
    if j == |t| {
      return Last, j;
    }
    XmlReader.Next(t, j);
    if IsSpace(t[j]) {
      j := CSpan(t, j, NoWs);
    }
    if j == |t| {
      k := Last;
    } else {
      XmlReader.Next(t, j);
      j := j + 1;
      k := Next;
    }
  }

  /** A comment, from behind its first three characters. */
  method CommentAt(t: string, i: nat, e: char, ghost st: Stack) returns (k: Kind, j: nat)
    requires i <= |t|
    ensures Gave(k, j, t, st, ReadComment(t[i..], e, st)) && (k.Next? ==> i <= j)
  {
    hide Find;
    var found;
    found, j := ScanFor(t, i, "--");
    if !found {
      return Bad, j;
    }
    assert t[i..][j - i + 2..] == t[j + 2..];
    j := j + 2;
    if j == |t| {
      k := if e == '>' then Last else Bad;
    } else {
      XmlReader.Next(t, j);
      j := j + 1;
      k := if t[j - 1] == '>' then Next else Bad;
    }
  }

  /** A section of character data, from behind its opening. */
  method CDataAt(p: Parser, t: string, i: nat) returns (k: Kind, j: nat)
    requires p.Valid() && i <= |t|
    modifies p, p.all
    ensures p.Valid() && p.all == old(p.all) && (k.Next? ==> i <= j)
    ensures Gave(k, j, t, p.st, ReadCData(t[i..], old(p.st)))
  {
    hide Parser.Valid, Find, Decoded, EndsInReturn, CharContent;
    var found;
    found, j := ScanFor(t, i, "]]>");
    if !found {
      return Bad, j;
    }
    var text := t[i..j];
    assert t[i..][..j - i] == text && t[i..][j - i + 3..] == t[j + 3..];
    j := j + 3;
    p.Now();
    if p.cur != null && EndsInReturn(text) {
      k := Odd;
    } else {
      if text != "" {
        p.Content(Decoded(text, 'c'));
      }
      k := Next;
    }
  }

  /** What stands behind a '<'. */
  method MarkupAt(p: Parser, t: string, i: nat, e: char) returns (k: Kind, j: nat)
    requires p.Valid() && i <= |t|
    modifies p, p.all
    ensures p.Valid() && old(p.all) <= p.all && fresh(p.all - old(p.all)) && (k.Next? ==> i < j)
    ensures Gave(k, j, t, p.st, ReadMarkup(t[i..], e, old(p.st)))
  {
    hide Parser.Valid, ReadOpen, ReadClose, ReadComment, ReadCData;
    j := i;
    if i < |t| {
      XmlReader.Next(t, i);
    }
    if i < |t| && IsNameStart(t[i]) {
      k, j := OpenAt(p, t, i, e);
    } else if i < |t| && t[i] == '/' {
      k, j := CloseAt(p, t, i + 1, e);
    } else if "!--" <= t[i..] {
      assert t[i..][3..] == t[i + 3..];
      k, j := CommentAt(t, i + 3, e, p.st);
    } else if "![CDATA[" <= t[i..] {
      assert t[i..][8..] == t[i + 8..];
      k, j := CDataAt(p, t, i + 8);
    } else {
      k := if "!DOCTYPE" <= t[i..] || (i < |t| && t[i] == '?') then Odd else Bad;
    }
  }

  /** The text between a '>' and the next '<'; the loop ends where there is none. */
  method TextAt(p: Parser, t: string, i: nat, ghost e: char) returns (k: Kind, j: nat)
    requires p.Valid() && i <= |t|
    modifies p, p.all
    ensures p.Valid() && p.all == old(p.all)
    ensures k.Next? ==> i < j <= |t| && ParseText(t[i..], e, old(p.st)) == ParseFrom(t[j..], e, p.st)
    ensures k.Last? ==> p.st == old(p.st) && ParseText(t[i..], e, p.st) == Finish(p.st)
    ensures k.Odd? ==> ParseText(t[i..], e, old(p.st)) == Unmodelled
    ensures !k.Bad?
  {
    hide *;
    p.Now();
    j := ScanTo(t, i, '<');
    var text := t[i..j];
    if j == |t| {
      k := Last;
      TextCases(t[i..], e, p.st, "");
    } else {
      assert t[i..][j - i + 1..] == t[j + 1..];
      TextCases(t[i..], e, p.st, t[j + 1..]);
      k := Next;
      if text != "" && p.cur != null {
        if EndsInReturn(text) {
          k := Odd;
        } else {
          p.Content(Decoded(text, '&'));
        }
      }
      j := j + 1;
    }
  }

  /** How the parser ends. */
  datatype Outcome = Success | Failure | Outside

  /** The outcome is that of the grammar; after a success the tags show the tree. */
  ghost predicate Gives(p: Parser, o: Outcome, r: Parsed)
    reads p, p.all
  {
    match r
    case Ok(e) =>
      o.Success? && p.root != null && p.closed <= p.all && Indexes(p.all) && Shows(p.root, e, p.closed) && p.cur == null
    case Failed => o.Failure?
    case Unmodelled => o.Outside?
  }

  /** The end of the text: success if the root has been closed. */
  method End(p: Parser) returns (o: Outcome)
    requires p.Valid()
    ensures Gives(p, o, Finish(p.st))
  {
    hide XmlIndex.Indexed, Shows, Indexes, TidyStack;
    p.Now();
    o := if p.root != null && p.cur == null then Success else Failure;
  }

  lemma FromMarkup(p: string, e: char, st: Stack)
    ensures ParseFrom(p, e, st) == match ReadMarkup(p, e, st)
      case BadTag => Failed
      case OddTag => Unmodelled
      case LastTag(st') => Finish(st')
      case GoodTag(st', q) => ParseText(q, e, st')
  {
  }

  /** The main loop, from behind the first '<'. */
  method Run(p: Parser, t: string, i: nat, e: char) returns (o: Outcome)
    requires p.Valid() && i <= |t|
    modifies p, p.all
    ensures fresh(p.all - old(p.all)) && Gives(p, o, ParseFrom(t[i..], e, old(p.st)))
  {
    hide ParseFrom, ParseText, ReadMarkup, Parser.Valid, Gives, Finish;
    var j := i;
    while true
      invariant i <= j <= |t| && p.Valid() && old(p.all) <= p.all && fresh(p.all - old(p.all))
      invariant ParseFrom(t[j..], e, p.st) == ParseFrom(t[i..], e, old(p.st))
      decreases |t| - j
    {
      FromMarkup(t[j..], e, p.st);
      var k, l := MarkupAt(p, t, j, e);
      if k.Bad? {
        o := Fails(p);
        return;
      } else if k.Odd? {
        o := OutsideOf(p);
        return;
      } else if k.Last? {
        o := End(p);
        return;
      }
      k, l := TextAt(p, t, l, e);
      if k.Odd? {
        o := OutsideOf(p);
        return;
      } else if k.Last? {
        o := End(p);
        return;
      }
      j := l;
    }
  }

  method Fails(p: Parser) returns (o: Outcome)
    ensures o.Failure? && Gives(p, o, Failed)
  {
    o := Failure;
  }

  method OutsideOf(p: Parser) returns (o: Outcome)
    ensures o.Outside? && Gives(p, o, Unmodelled)
  {
    o := Outside;
  }

  /**
   `ezxml_parse_str`: for every text the outcome is that of the grammar, and after a success the tags in memory show
   exactly its tree, each with its children in its three chains.
   */
  method ParseStr(s: string) returns (p: Parser, o: Outcome)
    ensures fresh(p) && fresh(p.all) && Gives(p, o, Parse(s))
  {
    hide ParseFrom, Parser.Valid, Gives;
    p := new Parser();
    if s == "" {
      o := Fails(p);
      return;
    }
    if s[0] == 0xFE as char || s[0] == 0xFF as char {
      o := OutsideOf(p);
      return;
    }
    var t := UpToNul(s[..|s| - 1]);
    var i := ScanTo(t, 0, '<');
    assert t[0..] == t;
    if i == |t| {
      o := Fails(p);
      return;
    }
    XmlReader.Next(t, i);
    o := Run(p, t, i + 1, s[|s| - 1]);
  }
}
