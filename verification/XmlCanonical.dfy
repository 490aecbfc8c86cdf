/**
 How the serialiser spells a tree: no white space but one blank in front of each
 attribute, double quotes, a start tag and an end tag for every element, and
 references only where a character needs one.
 */
module XmlCanonical {
  import Seqs
  import opened XmlAttr
  import opened XmlEncode
  import opened XmlTree
  import opened XmlReferences
  import opened XmlRoundTrip
  import opened XmlSpelled

  /** A character, in content or, with `a`, in the value of an attribute. */
  function CharPiece(c: char, a: bool): Piece {
    if c == '&' then ByName("amp", c)
    else if c == '<' then ByName("lt", c)
    else if c == '>' then ByName("gt", c)
    else if c == '\"' && a then ByName("quot", c)
    else if c == '\n' && a then ByNumber(Front("", false, ""), "A", [10], 16)
    else if c == '\t' && a then ByNumber(Front("", false, ""), "9", [9], 16)
    else if c == '\r' then ByNumber(Front("", false, ""), "D", [13], 16)
    else if c == '\n' then Line("\n")
    else Plain(c)
  }

  function PiecesOf(s: string, a: bool): seq<Piece> {
    if s == "" then [] else [CharPiece(s[0], a)] + PiecesOf(s[1..], a)
  }

  function CanonAttr(a: Attr): SAttr {
    Valued(" ", a.name, "=", '\"', PiecesOf(a.value, true))
  }

  function CanonAttrs(attrs: seq<Attr>): seq<SAttr> {
    if attrs == [] then [] else [CanonAttr(attrs[0])] + CanonAttrs(attrs[1..])
  }

  function Canon(e: Elem): SElem
    requires Good(e)
    decreases e, 1
  {
    SElem(e.name, CanonAttrs(e.attrs), "", Full(CanonContent(e.kids, e.txt, 0), ""))
  }

  function CanonContent(kids: Kids, txt: string, start: nat): Content
    requires start <= |txt| && GoodKids(kids, start, |txt|)
    decreases kids, 0
  {
    match kids
    case NoKids => Last(PiecesOf(txt[start..], false))
    case Kid(off, e, rest) =>
      Then(PiecesOf(txt[start..off], false), Child(Canon(e)), CanonContent(rest, txt, off))
  }

  // ----- the texts are the same -----

  lemma NameWritten(name: string, e: string, rest: string)
    requires e == "&" + name + ";"
    ensures NameRef(name, rest) == e + rest
  {
    NameShape(name, rest);
  }

  lemma CodeWritten(s: string, e: string, rest: string)
    requires e == "&#x" + (s + ";")
    ensures NumberRef(Front("", false, ""), s, 16, rest) == e + rest
  {
    NumberShape(Front("", false, ""), s, 16, rest);
    assert FrontText(Front("", false, "")) == "";
    assert "" + (s + ";") == s + ";";
  }

  lemma CharWritten(c: char, a: bool, rest: string)
    ensures PieceText(CharPiece(c, a), rest) == EncodeChar(c, a) + rest
  {
    hide NameRef, NumberRef;
    if c == '&' {
      NameWritten("amp", "&amp;", rest);
    } else if c == '<' {
      NameWritten("lt", "&lt;", rest);
    } else if c == '>' {
      NameWritten("gt", "&gt;", rest);
    } else if c == '\"' && a {
      NameWritten("quot", "&quot;", rest);
    } else if c == '\n' && a {
      CodeWritten("A", "&#xA;", rest);
    } else if c == '\t' && a {
      CodeWritten("9", "&#x9;", rest);
    } else if c == '\r' {
      CodeWritten("D", "&#xD;", rest);
    }
  }

  lemma {:induction false} PiecesWritten(s: string, a: bool)
    ensures XmlReferences.TextOf(PiecesOf(s, a)) == Encode(s, a)
    decreases |s|
  {
    hide PieceText, CharPiece, EncodeChar;
    if s != "" {
      PiecesWritten(s[1..], a);
      CharWritten(s[0], a, Encode(s[1..], a));
      assert PiecesOf(s, a)[1..] == PiecesOf(s[1..], a);
    }
  }

  lemma AttrWritten(a: Attr, rest: string)
    ensures AttrText(CanonAttr(a), rest) == PrintAttr(a) + rest
  {
    hide PrintAttr, XmlReferences.TextOf, PiecesOf, Encode;
    PrintAttrShape(a, rest);
    PiecesWritten(a.value, true);
    Equals(Encode(a.value, true) + ("\"" + rest));
  }

  lemma Equals(x: string)
    ensures "=" + (['\"'] + x) == "=\"" + x
  {
  }

  lemma {:induction false} AttrsWritten(attrs: seq<Attr>, seen: set<string>, rest: string)
    requires Fresh(attrs, seen)
    ensures AttrsText(CanonAttrs(attrs), rest) == PrintAttrs(attrs, seen) + rest
    decreases |attrs|
  {
    hide PrintAttr, AttrText, CanonAttr, IsName;
    if attrs == [] {
      assert "" + rest == rest;
    } else {
      var a, seen' := attrs[0], seen + {attrs[0].name};
      assert Fresh(attrs[1..], seen');
      AttrsWritten(attrs[1..], seen', rest);
      assert CanonAttrs(attrs)[1..] == CanonAttrs(attrs[1..]);
      AttrWritten(a, PrintAttrs(attrs[1..], seen') + rest);
      Seqs.Assoc(PrintAttr(a), PrintAttrs(attrs[1..], seen'), rest);
    }
  }

  lemma {:induction false} KidsWritten(kids: Kids, txt: string, start: nat, q: string)
    requires start <= |txt| && GoodKids(kids, start, |txt|)
    ensures PrintKids(kids, txt, start) + q == ContentText(CanonContent(kids, txt, start), q)
    decreases kids, 0
  {
    hide PrintElem, Encode, PiecesOf, XmlReferences.TextOf, ElemText, CoreText, Good;
    match kids
    case NoKids => PiecesWritten(txt[start..], false);
    case Kid(off, e, rest) =>
      PrintKidShape(kids, txt, start, q);
      PiecesWritten(txt[start..off], false);
      KidsWritten(rest, txt, off, q);
      ElemWritten(e, PrintKids(rest, txt, off) + q);
  }

  lemma {:induction false} ElemWritten(e: Elem, x: string)
    requires Good(e)
    ensures ElemText(e, x) == CoreText(Canon(e), ">" + x)
    decreases e, 1
  {
    hide PrintAttrs, PrintKids, AttrsText, ContentText, CanonAttrs, CanonContent;
    var q := "<" + ("/" + (e.name + (">" + x)));
    KidsWritten(e.kids, e.txt, 0, q);
    AttrsWritten(e.attrs, {}, ">" + (PrintKids(e.kids, e.txt, 0) + q));
    assert "" + (">" + x) == ">" + x;
    assert "" + (">" + (PrintKids(e.kids, e.txt, 0) + q)) == ">" + (PrintKids(e.kids, e.txt, 0) + q);
  }

  /** The serialised text is this spelling, to the character. */
  lemma Written(e: Elem)
    requires Good(e)
    ensures PrintElem(e) == "<" + CoreText(Canon(e), ">")
  {
    hide PrintElem, CoreText, Canon, ElemText;
    PrintElemShape(e, "");
    ElemWritten(e, "");
    assert PrintElem(e) + "" == PrintElem(e) && ">" + "" == ">";
  }
}
