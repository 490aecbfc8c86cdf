/**
 An ezXML document as a value: the tree of elements, the text that
 `ezxml_toxml` makes of it and what `ezxml_parse_str` makes of a text.
 Without a document type declaration the entities are the predefined ones and
 no tag has default attributes.
 */
module XmlTree {
  import opened XmlAttr
  import opened Arith
  import opened CText
  import opened XmlEntities
  import opened XmlDecode
  import opened XmlEncode
  import opened XmlText

  /** `txt` is all character content of the element; a child stands `off` characters into it. */
  datatype Elem = Elem(name: string, attrs: seq<Attr>, txt: string, kids: Kids)
  datatype Kids = NoKids | Kid(off: nat, elem: Elem, rest: Kids)

  // ----- ezxml_toxml -----

  /** The attributes; of several with one name only the first is written. */
  function PrintAttrs(attrs: seq<Attr>, seen: set<string>): string {
    if attrs == [] then ""
    else if attrs[0].name in seen then PrintAttrs(attrs[1..], seen)
    else PrintAttr(attrs[0]) + PrintAttrs(attrs[1..], seen + {attrs[0].name})
  }

  function PrintAttr(a: Attr): string {
    " " + a.name + "=\"" + Encode(a.value, true) + "\""
  }

  /** `txt[from..to]` as the source takes it: a length that wraps below zero means up to the end. */
  function Cut(txt: string, from: nat, to: nat): string
    requires from <= |txt|
  {
    if from <= to <= |txt| then txt[from..to] else txt[from..]
  }

  function PrintOpen(e: Elem): string {
    "<" + e.name + PrintAttrs(e.attrs, {}) + ">"
  }

  function PrintClose(e: Elem): string {
    "</" + e.name + ">"
  }

  /** `ezxml_toxml_r`: the children and the text `txt` around them, from `start` on. */
  function PrintKids(kids: Kids, txt: string, start: nat): string
    requires start <= |txt|
  {
    match kids
    case NoKids => Encode(txt[start..], false)
    case Kid(off, e, rest) =>
      Encode(Cut(txt, start, off), false) + PrintElem(e) + PrintKids(rest, txt, Min(off, |txt|))
  }

  function PrintElem(e: Elem): string {
    PrintOpen(e) + PrintKids(e.kids, e.txt, 0) + PrintClose(e)
  }

  // ----- what can be written and read back -----

  predicate IsNameStart(c: char) {
    'a' <= c <= 'z' || 'A' <= c <= 'Z' || c == '_' || c == ':'
  }

  /** A character that ends neither a name nor a tag. */
  predicate IsNameChar(c: char) {
    !IsSpace(c) && c != '/' && c != '>' && c != '=' && c != '\0'
  }

  predicate IsName(n: string) {
    n != "" && IsNameStart(n[0]) && forall i :: 0 <= i < |n| ==> IsNameChar(n[i])
  }

  predicate GoodAttrs(attrs: seq<Attr>) {
    && (forall i :: 0 <= i < |attrs| ==> IsName(attrs[i].name) && NulFree(attrs[i].value))
    && forall i, j :: 0 <= i < j < |attrs| ==> attrs[i].name != attrs[j].name
  }

  /** Names are names, no text has a terminator inside, and children stand in order within the text. */
  predicate Good(e: Elem) {
    IsName(e.name) && GoodAttrs(e.attrs) && NulFree(e.txt) && GoodKids(e.kids, 0, |e.txt|)
  }

  predicate GoodKids(kids: Kids, from: nat, to: nat) {
    kids.Kid? ==> from <= kids.off <= to && Good(kids.elem) && GoodKids(kids.rest, kids.off, to)
  }

  // ----- ezxml_parse_str -----

  /** An element whose closing tag has not been read, with the place it takes in its parent. */
  datatype Open = Open(off: nat, name: string, attrs: seq<Attr>, txt: string, kids: Kids)

  /** The open elements, innermost first; before the first tag and after the last one there is none. */
  datatype Stack = Start | Done(root: Elem) | On(top: Open, below: Stack)

  datatype Parsed = Ok(root: Elem) | Failed | Unmodelled

  function Snoc(kids: Kids, off: nat, e: Elem): Kids {
    match kids
    case NoKids => Kid(off, e, NoKids)
    case Kid(o, f, rest) => Kid(o, f, Snoc(rest, off, e))
  }

  /** `ezxml_open_tag` */
  function OpenTag(st: Stack, name: string, attrs: seq<Attr>): Stack
    requires !st.Done?
  {
    On(Open(if st.On? then |st.top.txt| else 0, name, attrs, "", NoKids), st)
  }

  /** `ezxml_char_content` of decoded text */
  function CharContent(st: Stack, t: string): Stack {
    if st.On? then st.(top := st.top.(txt := st.top.txt + t)) else st
  }

  /** `ezxml_close_tag` of the innermost element */
  function CloseTop(st: Stack): Stack
    requires st.On?
  {
    var e := Elem(st.top.name, st.top.attrs, st.top.txt, st.top.kids);
    match st.below
    case On(up, under) => On(up.(kids := Snoc(up.kids, st.top.off, e)), under)
    case _ => Done(e)
  }

  const RANKS: seq<nat> := [0, 0, 0, 0, 0]

  /** `ezxml_decode` with the predefined entities */
  function Decoded(s: string, t: char): string {
    Expand(Normal(s), DEFAULTS, RANKS, 1, t).text
  }

  function Span(p: string, stop: char -> bool): (n: nat)
    ensures n <= |p|
    ensures forall i :: 0 <= i < n ==> !stop(p[i])
    ensures n < |p| ==> stop(p[n])
  {
    if p == "" || stop(p[0]) then 0 else 1 + Span(p[1..], stop)
  }

  /** `while (*s && *s != c) s++;` */
  function SpanTo(p: string, c: char): (n: nat)
    ensures n <= |p|
    ensures forall i :: 0 <= i < n ==> p[i] != c
    ensures n < |p| ==> p[n] == c
  {
    if p == "" || p[0] == c then 0 else 1 + SpanTo(p[1..], c)
  }

  predicate IsWs(c: char) {
    c == '\t' || c == '\r' || c == '\n' || c == ' '
  }

  /** `s += strcspn(s, stops)` */
  function Past(p: string, stop: char -> bool): (r: string)
    ensures |r| <= |p|
    ensures r != "" ==> stop(r[0])
  {
    p[Span(p, stop)..]
  }

  datatype AttrsRead = Attrs(attrs: seq<Attr>, rest: string) | BadAttrs | OddAttrs

  function More(a: Attr, r: AttrsRead): AttrsRead {
    if r.Attrs? then Attrs([a] + r.attrs, r.rest) else r
  }

  predicate EndsTag(c: char) {
    c == '/' || c == '>'
  }

  predicate EndsAttrName(c: char) {
    IsWs(c) || c == '=' || c == '/' || c == '>'
  }

  predicate EndsName(c: char) {
    IsWs(c) || EndsTag(c)
  }

  predicate EndsClosing(c: char) {
    IsWs(c) || c == '>'
  }

  predicate NoWs(c: char) {
    !IsWs(c)
  }

  predicate NoWsOrEquals(c: char) {
    !IsWs(c) && c != '='
  }

  predicate NoSpace(c: char) {
    !IsSpace(c)
  }

  datatype ValueRead = Value(value: string, rest: string) | BadValue | OddValue

  /** The value of an attribute, from the character that ends its name. */
  function ReadValue(q: string): (r: ValueRead)
    requires q != ""
    ensures r.Value? ==> |r.rest| < |q|
  {
    var v := Past(q[1..], NoWsOrEquals);
    if v == "" || (v[0] != '\"' && v[0] != '\'') then Value("", v) else ReadQuoted(v[1..], v[0])
  }

  function ReadQuoted(v: string, quote: char): (r: ValueRead)
    ensures r.Value? ==> |r.rest| < |v|
  {
    var n := SpanTo(v, quote);
    if n == |v| then BadValue
    else if EndsInReturn(v[..n]) then OddValue
    else Value(Decoded(v[..n], ' '), v[n + 1..])
  }

  /** The attributes of a tag, from the first character behind white space. */
  function ReadAttrs(p: string): (r: AttrsRead)
    ensures r.Attrs? ==> |r.rest| <= |p| && (r.rest != "" ==> EndsTag(r.rest[0]))
    decreases |p|
  {
    hide ReadValue, Span;
    if p == "" || EndsTag(p[0]) then Attrs([], p)
    else
      var name := p[..Span(p, EndsAttrName)];
      var q := Past(p, EndsAttrName);
      if q == "" || (q[0] != '=' && !IsSpace(q[0])) then More(Attr(name, ""), ReadAttrs(Past(q, NoSpace)))
      else match ReadValue(q)
        case BadValue => BadAttrs
        case OddValue => OddAttrs
        case Value(v, rest) => More(Attr(name, v), ReadAttrs(Past(rest, NoSpace)))
  }

  /** What a tag leaves: the stack, and the text from the end of the tag on, if the buffer does not end there. */
  datatype TagRead = GoodTag(st: Stack, rest: string) | LastTag(st: Stack) | BadTag | OddTag

  /**
   The end of a start tag, from its slash or '>' on; `e` is the last character of the document, which the buffer no
   longer holds.
   */
  function EndOpen(q: string, e: char, st: Stack): (r: TagRead)
    requires st.On?
    ensures r.GoodTag? ==> |r.rest| < |q|
  {
    if q == "" then (if e == '>' then LastTag(st) else BadTag)
    else if q[0] == '>' then GoodTag(st, q[1..])
    else if q[1..] == "" then (if e == '>' then LastTag(CloseTop(st)) else BadTag)
    else if q[1] == '>' then GoodTag(CloseTop(st), q[2..])
    else BadTag
  }

  /** A start tag. */
  function ReadOpen(p: string, e: char, st: Stack): (r: TagRead)
    ensures r.GoodTag? ==> |r.rest| < |p|
  {
    if st.Done? then BadTag
    else
      var n := Span(p, EndsName);
      match ReadAttrs(Past(p[n..], NoSpace))
      case BadAttrs => BadTag
      case OddAttrs => OddTag
      case Attrs(attrs, q) => EndOpen(q, e, OpenTag(st, p[..n], attrs))
  }

  /** An end tag, from behind the slash. */
  function ReadClose(p: string, e: char, st: Stack): (r: TagRead)
    ensures r.GoodTag? ==> |r.rest| <= |p|
  {
    var n := Span(p, EndsClosing);
    if n == |p| && e != '>' then BadTag
    else if !st.On? || st.top.name != p[..n] then BadTag
    else if n == |p| then LastTag(CloseTop(st))
    else
      var q := if IsSpace(p[n]) then Past(p[n..], NoWs) else p[n..];
      if q == "" then LastTag(CloseTop(st)) else GoodTag(CloseTop(st), q[1..])
  }

  /** The text behind the first `w` in `p`. */
  function Find(p: string, w: string): (r: Found)
    ensures r.At? ==> r.n + |w| <= |p| && p[r.n..r.n + |w|] == w
  {
    if w <= p then At(0)
    else if p == "" then Nowhere
    else match Find(p[1..], w) { case At(n) => At(n + 1) case Nowhere => Nowhere }
  }

  datatype Found = At(n: nat) | Nowhere

  /** A comment, from behind its first three characters. */
  function ReadComment(p: string, e: char, st: Stack): (r: TagRead)
    ensures r.GoodTag? ==> |r.rest| <= |p|
  {
    match Find(p, "--")
    case Nowhere => BadTag
    case At(n) =>
      var q := p[n + 2..];
      if q == "" then (if e == '>' then LastTag(st) else BadTag)
      else if q[0] == '>' then GoodTag(st, q[1..]) else BadTag
  }

  /** A section of character data, from behind its opening. */
  function ReadCData(p: string, st: Stack): (r: TagRead)
    ensures r.GoodTag? ==> |r.rest| <= |p|
  {
    match Find(p, "]]>")
    case Nowhere => BadTag
    case At(n) =>
      if st.On? && EndsInReturn(p[..n]) then OddTag
      else GoodTag(if n == 0 then st else CharContent(st, Decoded(p[..n], 'c')), p[n + 3..])
  }

  /** What stands behind a '<'. */
  function ReadMarkup(p: string, e: char, st: Stack): (r: TagRead)
    ensures r.GoodTag? ==> |r.rest| < |p|
  {
    if p != "" && IsNameStart(p[0]) then ReadOpen(p, e, st)
    else if p != "" && p[0] == '/' then ReadClose(p[1..], e, st)
    else if "!--" <= p then ReadComment(p[3..], e, st)
    else if "![CDATA[" <= p then ReadCData(p[8..], st)
    else if "!DOCTYPE" <= p || (p != "" && p[0] == '?') then OddTag
    else BadTag
  }

  function Finish(st: Stack): Parsed {
    if st.Done? then Ok(st.root) else Failed
  }

  /** The main loop, from behind a '<'. */
  function ParseFrom(p: string, e: char, st: Stack): Parsed
    decreases |p|, 1
  {
    match ReadMarkup(p, e, st)
    case BadTag => Failed
    case OddTag => Unmodelled
    case LastTag(st') => Finish(st')
    case GoodTag(st', q) => ParseText(q, e, st')
  }

  /** The main loop, from behind a '>'. */
  function ParseText(p: string, e: char, st: Stack): Parsed
    decreases |p|, 0
  {
    var n := SpanTo(p, '<');
    if n == |p| then Finish(st)
    else if n == 0 then ParseFrom(p[1..], e, st)
    else if st.On? && EndsInReturn(p[..n]) then Unmodelled
    else ParseFrom(p[n + 1..], e, if st.On? then CharContent(st, Decoded(p[..n], '&')) else st)
  }

  /** `ezxml_parse_str` of a text in UTF-8; document type declarations and processing instructions are not modelled. */
  function Parse(s: string): Parsed {
    if s == "" then Failed
    else if s[0] == 0xFE as char || s[0] == 0xFF as char then Unmodelled
    else
      var p := UpToNul(s[..|s| - 1]);
      var n := SpanTo(p, '<');
      if n == |p| then Failed else ParseFrom(p[n + 1..], s[|s| - 1], Start)
  }
}
