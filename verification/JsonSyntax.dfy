/**
 JSON as it may be written: white space between any two tokens, and every
 spelling of strings and numbers.  The parser accepts exactly these texts, and
 reads every one as what it means.
 */
module JsonSyntax {
  import opened CText
  import opened JsonText
  import opened JsonParse
  import JsonItem
  import JsonReader
  import opened JsonNumber
  import opened Numerals
  import Utf8

  /** A character as itself, behind a backslash, or as one or two units of UTF-16 in hexadecimal digits. */
  datatype Chr =
    | Raw(c: char)
    | Short(c: char)
    | Unit(hex: string, ds: seq<nat>)
    | Pair(hex: string, ds: seq<nat>, hex2: string, ds2: seq<nat>)

  datatype Doc =
    | NullDoc
    | FalseDoc
    | TrueDoc
    | NumberDoc(num: Num)
    | StringDoc(chars: seq<Chr>)
    | ArrayDoc(lead: string, items: ItemDocs)
    | ObjectDoc(lead: string, members: MemberDocs)

  /** `trail` stands behind the value, `lead` behind the comma, if there is one. */
  datatype ItemDocs = NoItemDoc | ItemDoc(value: Doc, trail: string, lead: string, more: ItemDocs)

  /** `behind` stands behind the key, `before` in front of the value. */
  datatype MemberDocs =
    | NoMemberDoc
    | MemberDoc(key: seq<Chr>, behind: string, before: string, value: Doc, trail: string, lead: string,
                more: MemberDocs)

  // ----- the text, in front of `rest` -----

  function ChrText(c: Chr, rest: string): string {
    match c
    case Raw(c) => [c] + rest
    case Short(c) => "\\" + ([c] + rest)
    case Unit(hex, _) => "\\" + ("u" + (hex + rest))
    case Pair(hex, _, hex2, _) => "\\" + ("u" + (hex + ("\\u" + (hex2 + rest))))
  }

  function CharsText(s: seq<Chr>, rest: string): string {
    if s == [] then rest else ChrText(s[0], CharsText(s[1..], rest))
  }

  function StringText(s: seq<Chr>, rest: string): string {
    "\"" + CharsText(s, "\"" + rest)
  }

  function DocText(d: Doc, rest: string): string
    requires DocOk(d)
    decreases d
  {
    match d
    case NullDoc => "null" + rest
    case FalseDoc => "false" + rest
    case TrueDoc => "true" + rest
    case NumberDoc(num) => NumText(num) + rest
    case StringDoc(s) => StringText(s, rest)
    case ArrayDoc(lead, items) => "[" + (lead + ItemsText(items, "]" + rest))
    case ObjectDoc(lead, members) => "{" + (lead + MembersText(members, "}" + rest))
  }

  function ItemsText(items: ItemDocs, rest: string): string
    requires ItemsOk(items)
    decreases items, 0
  {
    match items
    case NoItemDoc => rest
    case ItemDoc(value, trail, lead, more) => DocText(value, trail + CommaItems(lead, more, rest))
  }

  /** The end of the items, or a comma and the next of them. */
  function CommaItems(lead: string, more: ItemDocs, rest: string): string
    requires ItemsOk(more)
    decreases more, 1
  {
    if more.NoItemDoc? then rest else "," + (lead + ItemsText(more, rest))
  }

  function MembersText(members: MemberDocs, rest: string): string
    requires MembersOk(members)
    decreases members, 0
  {
    match members
    case NoMemberDoc => rest
    case MemberDoc(key, behind, before, value, trail, lead, more) =>
      StringText(key, behind + (":" + (before + DocText(value, trail + CommaMembers(lead, more, rest)))))
  }

  function CommaMembers(lead: string, more: MemberDocs, rest: string): string
    requires MembersOk(more)
    decreases more, 1
  {
    if more.NoMemberDoc? then rest else "," + (lead + MembersText(more, rest))
  }

  // ----- what may be written -----

  /** White space, and with it every control character. */
  predicate Blank(w: string) {
    forall i :: 0 <= i < |w| ==> w[i] <= ' '
  }

  predicate Hexes(hex: string, ds: seq<nat>) {
    |ds| == 4 && Denotes(hex, ds, 16)
  }

  predicate High(u: nat) {
    0xD800 <= u < 0xDC00
  }

  predicate Low(u: nat) {
    0xDC00 <= u < 0xE000
  }

  predicate ChrOk(c: Chr) {
    match c
    case Raw(c) => c != '\"' && c != '\\'
    case Short(c) => c != 'u'
    case Unit(hex, ds) => Hexes(hex, ds)
    case Pair(hex, ds, hex2, ds2) => Hexes(hex, ds) && Hexes(hex2, ds2) && High(Value(ds, 16))
  }

  /** A unit that begins a pair has no other unit behind it. */
  predicate CharsOk(s: seq<Chr>) {
    && (forall i :: 0 <= i < |s| ==> ChrOk(s[i]))
    && (forall i :: 0 <= i < |s| - 1 && s[i].Unit? && High(Value(s[i].ds, 16)) ==> !s[i + 1].Unit? && !s[i + 1].Pair?)
  }

  predicate DocOk(d: Doc)
    decreases d
  {
    match d
    case NumberDoc(num) => IsNum(num)
    case StringDoc(s) => CharsOk(s)
    case ArrayDoc(lead, items) => Blank(lead) && ItemsOk(items)
    case ObjectDoc(lead, members) => Blank(lead) && MembersOk(members)
    case _ => true
  }

  predicate ItemsOk(items: ItemDocs)
    decreases items
  {
    match items
    case NoItemDoc => true
    case ItemDoc(value, trail, lead, more) => DocOk(value) && Blank(trail) && Blank(lead) && ItemsOk(more)
  }

  predicate MembersOk(members: MemberDocs)
    decreases members
  {
    match members
    case NoMemberDoc => true
    case MemberDoc(key, behind, before, value, trail, lead, more) =>
      && CharsOk(key) && Blank(behind) && Blank(before) && DocOk(value) && Blank(trail) && Blank(lead)
      && MembersOk(more)
  }

  // ----- what it means -----

  /** The character behind a backslash. */
  function Named(c: char): char {
    match c
    case 'b' => 8 as char
    case 't' => 9 as char
    case 'n' => 10 as char
    case 'f' => 12 as char
    case 'r' => 13 as char
    case _ => c
  }

  /** A unit that is no character, and one without its pair, adds nothing. */
  function ChrMeans(c: Chr): string
    requires ChrOk(c)
  {
    match c
    case Raw(c) => [c]
    case Short(c) => [Named(c)]
    case Unit(_, ds) =>
      var u := Value(ds, 16);
      if 0 < u < 0x10000 && !High(u) && !Low(u) then Utf8.Encode(u) else ""
    case Pair(_, ds, _, ds2) =>
      var u, v := Value(ds, 16), Value(ds2, 16);
      if Low(v) then Utf8.Encode(0x10000 + (u - 0xD800) * 0x400 + (v - 0xDC00)) else ""
  }

  function CharsMean(s: seq<Chr>): string
    requires CharsOk(s)
  {
    if s == [] then ""
    else
      Tail(s);
      ChrMeans(s[0]) + CharsMean(s[1..])
  }

  lemma Tail(s: seq<Chr>)
    requires CharsOk(s) && s != []
    ensures ChrOk(s[0]) && CharsOk(s[1..])
  {
    assert forall i :: 0 <= i < |s[1..]| ==> s[1..][i] == s[i + 1];
  }

  function Meaning(d: Doc): Json
    requires DocOk(d)
    decreases d
  {
    match d
    case NullDoc => Null
    case FalseDoc => False
    case TrueDoc => True
    case NumberDoc(num) => Number(NumValue(num))
    case StringDoc(s) => String(CharsMean(s))
    case ArrayDoc(_, items) => Array(ItemsMean(items))
    case ObjectDoc(_, members) => Object(MembersMean(members))
  }

  function ItemsMean(items: ItemDocs): Items
    requires ItemsOk(items)
    decreases items
  {
    match items
    case NoItemDoc => NoItem
    case ItemDoc(value, _, _, more) => Item(Meaning(value), ItemsMean(more))
  }

  function MembersMean(members: MemberDocs): Members
    requires MembersOk(members)
    decreases members
  {
    match members
    case NoMemberDoc => NoMember
    case MemberDoc(key, _, _, value, _, _, more) => Member(CharsMean(key), Meaning(value), MembersMean(more))
  }

  // ----- strings are read as what they mean -----

  lemma HexCharIs(c: char, d: nat)
    requires d < 16 && (c == Lower(d) || c == Upper(d))
    ensures IsHex(c) && HexValue(c) == d
  {
  }

  lemma HexesAre(hex: string, ds: seq<nat>, rest: string)
    requires Hexes(hex, ds)
    ensures var s := hex + rest;
      && |s| >= 4 && s[4..] == rest && Hex4(s) == Value(ds, 16) && Value(ds, 16) < 0x10000
      && IsHex(s[0]) && IsHex(s[1]) && IsHex(s[2]) && IsHex(s[3])
  {
    FourDigits(ds);
    hide Lower, Upper, HexValue, IsHex, Value;
    HexCharIs(hex[0], ds[0]);
    HexCharIs(hex[1], ds[1]);
    HexCharIs(hex[2], ds[2]);
    HexCharIs(hex[3], ds[3]);
  }

  lemma FourDigits(ds: seq<nat>)
    requires |ds| == 4
    ensures Value(ds, 16) == 4096 * ds[0] + 256 * ds[1] + 16 * ds[2] + ds[3]
  {
    assert Power(16, 1) == 16 && Power(16, 2) == 256 && Power(16, 3) == 4096;
    var u, v, w := ds[1..], ds[2..], ds[3..];
    assert u[1..] == v && v[1..] == w && w[1..] == [];
    assert Value(w, 16) == ds[3];
  }

  lemma ReadUnit(hex: string, ds: seq<nat>, rest: string)
    requires Hexes(hex, ds) && (High(Value(ds, 16)) ==> !("\\u" <= rest))
    ensures UnicodeEscape(hex + rest) == Parsed(ChrMeans(Unit(hex, ds)), rest)
  {
    HexesAre(hex, ds, rest);
    hide Hexes, Hex4, Value, Utf8.Encode;
  }

  lemma ReadPair(c: Chr, rest: string)
    requires c.Pair? && ChrOk(c)
    ensures UnicodeEscape(c.hex + ("\\u" + (c.hex2 + rest))) == Parsed(ChrMeans(c), rest)
  {
    hide *;
    var s := c.hex + ("\\u" + (c.hex2 + rest));
    PairMeans(c);
    HexesAre(c.hex, c.ds, "\\u" + (c.hex2 + rest));
    HexesAre(c.hex2, c.ds2, rest);
    PairParts(c.hex, c.hex2, rest);
    PairSteps(s, Value(c.ds, 16), Value(c.ds2, 16), c.hex2 + rest, rest);
  }

  lemma PairParts(hex: string, hex2: string, rest: string)
    requires |hex| == |hex2| == 4
    ensures var s := hex + ("\\u" + (hex2 + rest));
      |s| >= 10 && s[4..] == "\\u" + (hex2 + rest) && "\\u" <= s[4..] && s[6..] == hex2 + rest && s[10..] == rest
  {
  }

  lemma PairMeans(c: Chr)
    requires c.Pair? && ChrOk(c)
    ensures var u, v := Value(c.ds, 16), Value(c.ds2, 16);
      && Hexes(c.hex, c.ds) && Hexes(c.hex2, c.ds2) && |c.hex| == |c.hex2| == 4 && 0xD800 <= u < 0xDC00
      && ChrMeans(c) == if 0xDC00 <= v < 0xE000 then Utf8.Encode(0x10000 + (u - 0xD800) * 0x400 + (v - 0xDC00)) else ""
  {
    hide Value, Utf8.Encode;
  }

  lemma PairSteps(s: string, u: nat, v: nat, t: string, rest: string)
    requires |s| >= 10 && "\\u" <= s[4..] && s[6..] == t && |t| >= 4 && s[10..] == rest && Hex4(s) == u && Hex4(t) == v
    requires 0xD800 <= u < 0xDC00
    ensures UnicodeEscape(s) == Parsed(
      if 0xDC00 <= v < 0xE000 then Utf8.Encode(0x10000 + (u - 0xD800) * 0x400 + (v - 0xDC00)) else "", rest)
  {
    hide Hex4, Utf8.Encode;
  }

  lemma ReadEscape(c: Chr, rest: string)
    requires ChrOk(c) && !c.Raw? && (c.Unit? && High(Value(c.ds, 16)) ==> !("\\u" <= rest))
    ensures var s := ChrText(c, rest); s[0] == '\\' && Unescape(s[1..]) == Parsed(ChrMeans(c), rest)
  {
    hide UnicodeEscape, Hexes, Value, Utf8.Encode;
    var t := ChrText(c, rest)[1..];
    match c
    case Short(c) => assert t[1..] == rest;
    case Unit(hex, ds) =>
      assert t[1..] == hex + rest;
      ReadUnit(hex, ds, rest);
    case Pair(hex, ds, hex2, ds2) =>
      assert t[1..] == hex + ("\\u" + (hex2 + rest));
      ReadPair(c, rest);
  }

  /** A character that is no unit, or the end of the string. */
  lemma NoUnit(s: seq<Chr>, rest: string)
    requires CharsOk(s) && (s != [] ==> !s[0].Unit? && !s[0].Pair?)
    ensures !("\\u" <= CharsText(s, "\"" + rest))
  {
    if s == [] {
      assert ("\"" + rest)[0] == '\"';
    } else {
      assert ChrOk(s[0]);
      var t := ChrText(s[0], CharsText(s[1..], "\"" + rest));
      if s[0].Raw? {
        assert t[0] == s[0].c;
      } else {
        assert t[1] == s[0].c;
      }
    }
  }

  lemma {:induction false} ReadChars(s: seq<Chr>, rest: string)
    requires CharsOk(s)
    ensures StringBody(CharsText(s, "\"" + rest)) == Parsed(CharsMean(s), rest)
    decreases |s|
  {
    if s == [] {
      assert ("\"" + rest)[1..] == rest;
    } else {
      var more := CharsText(s[1..], "\"" + rest);
      var t := ChrText(s[0], more);
      Tail(s);
      ReadChars(s[1..], rest);
      if s[0].Raw? {
        assert t[0] == s[0].c && t[1..] == more;
      } else {
        if s[0].Unit? && High(Value(s[0].ds, 16)) {
          assert |s| > 1 ==> !s[1].Unit? && !s[1].Pair?;
          NoUnit(s[1..], rest);
        }
        ReadEscape(s[0], more);
        hide Unescape, ChrText, ChrMeans;
      }
    }
  }

  lemma ReadString(s: seq<Chr>, rest: string)
    requires CharsOk(s)
    ensures Head(StringText(s, rest)) == '\"' && ParseString(StringText(s, rest)) == Parsed(CharsMean(s), rest)
  {
    ReadChars(s, rest);
    assert StringText(s, rest)[1..] == CharsText(s, "\"" + rest);
  }

  // ----- every text is read as what it means -----

  lemma {:induction false} SkipBlank(w: string, t: string)
    requires Blank(w) && (t == "" || t[0] > ' ')
    ensures Skip(w + t) == t
    decreases |w|
  {
    if w == "" {
      assert w + t == t;
    } else {
      assert (w + t)[0] == w[0] && (w + t)[1..] == w[1..] + t;
      SkipBlank(w[1..], t);
    }
  }

  lemma SkipNone(t: string)
    requires t == "" || t[0] > ' '
    ensures Skip(t) == t
  {
  }

  /** Behind a value come white space and a comma or a bracket, or the end of the text. */
  lemma TrailEnds(w: string, t: string)
    requires Blank(w) && (t == "" || t[0] == ',' || t[0] == ']' || t[0] == '}')
    ensures Ends(w + t)
  {
    if w == "" {
      assert w + t == t;
    } else {
      assert (w + t)[0] == w[0];
    }
  }

  lemma NumHead(n: Num, rest: string)
    requires IsNum(n)
    ensures var c := Head(NumText(n) + rest); c == '-' || IsDigit(c)
  {
    Grouped(n, rest);
    var point := FractionText(n.fraction) + (ExpText(n.exponent) + rest);
    if !n.minus && !n.zero {
      DecimalFront(n.digits, point);
      DigitIs(n.digits[0]);
    }
    hide FractionText, ExpText, Decimal, Lower, IsExp, Numerals.Digits, NumText;
  }

  lemma DocHead(d: Doc, rest: string)
    requires DocOk(d)
    ensures var c := Head(DocText(d, rest)); c > ' ' && c != ']' && c != '}' && c != ','
  {
    if d.NumberDoc? {
      NumHead(d.num, rest);
    }
    hide ItemsText, MembersText, CharsText, NumText;
  }

  /** The escapes of a string are complete, as its reader demands. */
  lemma {:induction false} CharsWell(s: seq<Chr>, rest: string)
    requires CharsOk(s)
    ensures JsonReader.WellEscaped(CharsText(s, "\"" + rest))
    decreases |s|
  {
    if s != [] {
      Tail(s);
      CharsWell(s[1..], rest);
      ChrWell(s[0], CharsText(s[1..], "\"" + rest));
    }
  }

  lemma ChrWell(c: Chr, more: string)
    requires ChrOk(c) && JsonReader.WellEscaped(more)
    ensures JsonReader.WellEscaped(ChrText(c, more))
  {
    var s := ChrText(c, more);
    match c
    case Raw(_) => assert s[1..] == more;
    case Short(_) => assert s[2..] == more;
    case Unit(hex, ds) =>
      HexesAre(hex, ds, more);
      UnitWell(hex, more);
    case Pair(hex, ds, hex2, ds2) =>
      HexesAre(hex2, ds2, more);
      UnitWell(hex2, more);
      assert "\\u" + (hex2 + more) == "\\" + ("u" + (hex2 + more));
      HexesAre(hex, ds, "\\u" + (hex2 + more));
      UnitWell(hex, "\\u" + (hex2 + more));
  }

  lemma UnitWell(hex: string, more: string)
    requires |hex| == 4 && JsonReader.WellEscaped(more)
    requires var s := hex + more; IsHex(s[0]) && IsHex(s[1]) && IsHex(s[2]) && IsHex(s[3])
    ensures JsonReader.WellEscaped("\\" + ("u" + (hex + more)))
  {
    var s, h := "\\" + ("u" + (hex + more)), hex + more;
    assert s[6..] == more && s[2] == h[0] && s[3] == h[1] && s[4] == h[2] && s[5] == h[3];
    hide IsHex;
  }

  lemma ReadScalar(d: Doc, rest: string)
    requires DocOk(d) && !d.ArrayDoc? && !d.ObjectDoc? && Ends(rest)
    ensures ParseValue(DocText(d, rest)) == Parsed(Meaning(d), rest) && JsonReader.ValueOk(DocText(d, rest))
  {
    hide ParseArray, ParseObject, ParseString, ParseNumber, JsonReader.WellEscaped, NumText, StringText, CharsOk, IsNum;
    hide Ends, NumValue, CharsMean;
    match d
    case NumberDoc(num) =>
      NumHead(num, rest);
      EndsStops(num, rest);
      NumberIs(num, rest);
    case StringDoc(s) =>
      ReadString(s, rest);
      CharsWell(s, rest);
      QuoteOff(s, rest);
    case NullDoc => Word("null", rest);
    case FalseDoc => Word("false", rest);
    case TrueDoc => Word("true", rest);
  }

  lemma Word(w: string, rest: string)
    ensures w <= w + rest && (w + rest)[|w|..] == rest
  {
  }

  lemma QuoteOff(s: seq<Chr>, rest: string)
    ensures StringText(s, rest) != "" && StringText(s, rest)[1..] == CharsText(s, "\"" + rest)
  {
  }

  lemma {:induction false} ReadDoc(d: Doc, rest: string)
    requires DocOk(d) && Ends(rest)
    ensures ParseValue(DocText(d, rest)) == Parsed(Meaning(d), rest) && JsonReader.ValueOk(DocText(d, rest))
    decreases d, 1
  {
    match d
    case ArrayDoc(lead, items) =>
      ReadArray(lead, items, rest);
      hide ParseArray, JsonReader.ArrayOk, ItemsText;
    case ObjectDoc(lead, members) =>
      ReadObject(lead, members, rest);
      hide ParseObject, JsonReader.ObjectOk, MembersText;
    case _ => ReadScalar(d, rest);
  }

  lemma {:induction false} ReadArray(lead: string, items: ItemDocs, rest: string)
    requires Blank(lead) && ItemsOk(items)
    ensures var s := "[" + (lead + ItemsText(items, "]" + rest));
      ParseArray(s) == Parsed(Array(ItemsMean(items)), rest) && JsonReader.ArrayOk(s)
    decreases items, 2
  {
    var t := ItemsText(items, "]" + rest);
    var s := "[" + (lead + t);
    assert s[0] == '[' && s[1..] == lead + t;
    assert ("]" + rest)[1..] == rest;
    if items.ItemDoc? {
      ReadItem(items, "]" + rest);
      SkipBlank("", t);
      assert "" + t == t;
    }
    SkipBlank(lead, t);
    hide ItemsText, ParseValue, MoreItems, JsonReader.FirstOk, Skip;
  }

  lemma {:induction false} ReadItem(items: ItemDocs, rest: string)
    requires items.ItemDoc? && ItemsOk(items) && Head(rest) == ']'
    ensures var t := ItemsText(items, rest);
      && Head(t) > ' ' && Head(t) != ']' && ParseValue(t).Parsed? && ParseValue(t).value == Meaning(items.value)
      && MoreItems(Skip(ParseValue(t).rest)) == Parsed(ItemsMean(items.more), rest) && JsonReader.FirstOk(t)
    decreases items, 1
  {
    var c := CommaItems(items.lead, items.more, rest);
    TrailEnds(items.trail, c);
    DocHead(items.value, items.trail + c);
    ReadDoc(items.value, items.trail + c);
    SkipBlank(items.trail, c);
    if items.more.ItemDoc? {
      var u := ItemsText(items.more, rest);
      ReadItem(items.more, rest);
      assert c[1..] == items.lead + u;
      SkipBlank(items.lead, u);
    }
    hide ParseValue, JsonReader.ValueOk, DocText, Skip, Blank;
  }

  lemma {:induction false} ReadObject(lead: string, members: MemberDocs, rest: string)
    requires Blank(lead) && MembersOk(members)
    ensures var s := "{" + (lead + MembersText(members, "}" + rest));
      ParseObject(s) == Parsed(Object(MembersMean(members)), rest) && JsonReader.ObjectOk(s)
    decreases members, 2
  {
    var t := MembersText(members, "}" + rest);
    var s := "{" + (lead + t);
    assert s[0] == '{' && s[1..] == lead + t;
    assert ("}" + rest)[1..] == rest;
    if members.MemberDoc? {
      ReadMember(members, "}" + rest);
    }
    SkipBlank(lead, t);
    hide MembersText, ParsePair, MoreMembers, JsonReader.FirstPairOk, Skip;
  }

  lemma {:induction false} ReadMember(members: MemberDocs, rest: string)
    requires members.MemberDoc? && MembersOk(members) && Head(rest) == '}'
    ensures var t := MembersText(members, rest);
      && Head(t) > ' ' && Head(t) != '}' && ParsePair(t).Parsed?
      && ParsePair(t).value == (CharsMean(members.key), Meaning(members.value))
      && MoreMembers(ParsePair(t).rest) == Parsed(MembersMean(members.more), rest) && JsonReader.FirstPairOk(t)
    decreases members, 1
  {
    var c := CommaMembers(members.lead, members.more, rest);
    ReadPairDoc(members, c);
    if members.more.MemberDoc? {
      var u := MembersText(members.more, rest);
      ReadMember(members.more, rest);
      assert c[1..] == members.lead + u;
      SkipBlank(members.lead, u);
      SkipBlank("", u);
      assert "" + u == u;
      SamePair(members.lead + u, u);
    }
    hide ParsePair, JsonReader.PairOk, Skip, Blank, StringText, DocText;
  }

  /** White space in front of a pair does not matter. */
  lemma SamePair(s: string, t: string)
    requires Skip(s) == Skip(t)
    ensures ParsePair(s) == ParsePair(t) && JsonReader.PairOk(s) == JsonReader.PairOk(t)
    ensures JsonReader.FirstPairOk(s) == JsonReader.FirstPairOk(t)
  {
    hide Skip, ParseString, ParseValue, JsonReader.ValueOk, JsonReader.WellEscaped, JsonReader.MembersOk;
  }

  lemma {:induction false} ReadPairDoc(m: MemberDocs, c: string)
    requires m.MemberDoc? && MembersOk(m) && (c != "" && (c[0] == ',' || c[0] == '}'))
    ensures var t := StringText(m.key, m.behind + (":" + (m.before + DocText(m.value, m.trail + c))));
      && Head(t) == '\"' && ParsePair(t) == Parsed((CharsMean(m.key), Meaning(m.value)), c) && JsonReader.PairOk(t)
    decreases m, 0
  {
    hide Skip, ParseString, ParseValue, JsonReader.ValueOk, JsonReader.WellEscaped, Blank, StringText, DocText,
      CharsText;
    hide Meaning, CharsMean, CharsOk, DocOk;
    var v := DocText(m.value, m.trail + c);
    var u := ":" + (m.before + v);
    var t := StringText(m.key, m.behind + u);
    TrailEnds(m.trail, c);
    DocHead(m.value, m.trail + c);
    ReadDoc(m.value, m.trail + c);
    ReadString(m.key, m.behind + u);
    CharsWell(m.key, m.behind + u);
    QuoteOff(m.key, m.behind + u);
    SkipNone(t);
    SkipBlank(m.behind, u);
    assert u[0] == ':' && u[1..] == m.before + v;
    SkipBlank(m.before, v);
    SkipBlank(m.trail, c);
  }

  // ----- and nothing else is read -----

  lemma {:induction false} SplitBlank(s: string) returns (w: string)
    ensures Blank(w) && s == w + Skip(s) && (Skip(s) == "" || Skip(s)[0] > ' ') && Skip(Skip(s)) == Skip(s)
    decreases |s|
  {
    if s != "" && s[0] <= ' ' {
      var v := SplitBlank(s[1..]);
      w := [s[0]] + v;
      assert s == [s[0]] + s[1..];
    } else {
      w := "";
    }
  }

  lemma HexDigitOf(c: char) returns (d: nat)
    requires IsHex(c)
    ensures d < 16 && (c == Lower(d) || c == Upper(d))
  {
    d := HexValue(c);
  }

  lemma HexesOf(s: string) returns (hex: string, ds: seq<nat>)
    requires JsonReader.FourHex(s)
    ensures Hexes(hex, ds) && s == hex + s[4..] && hex == s[..4]
  {
    var a := HexDigitOf(s[0]);
    var b := HexDigitOf(s[1]);
    var c := HexDigitOf(s[2]);
    var d := HexDigitOf(s[3]);
    hide IsHex, Lower, Upper;
    hex, ds := s[..4], [a, b, c, d];
  }

  /** The first character of the text of a unit or a pair. */
  lemma UnitShows(s: seq<Chr>, rest: string)
    requires CharsOk(s) && s != [] && (s[0].Unit? || s[0].Pair?)
    ensures "\\u" <= CharsText(s, rest)
  {
    var more := CharsText(s[1..], rest);
    var t := ChrText(s[0], more);
    assert t[0] == '\\' && t[1] == 'u';
  }

  /** What an escape takes. */
  lemma OnlyEscapes(s: string) returns (c: Chr)
    requires s != "" && s[0] == '\\' && JsonReader.WellEscaped(s) && Unescape(s[1..]).Parsed?
    ensures !c.Raw? && ChrOk(c) && s == ChrText(c, Unescape(s[1..]).rest)
    ensures JsonReader.WellEscaped(Unescape(s[1..]).rest)
    ensures c.Unit? && High(Value(c.ds, 16)) ==> !("\\u" <= Unescape(s[1..]).rest)
  {
    hide UnicodeEscape, Hexes, Value, ChrText, IsHex;
    LongEnough(s);
    assert s[1..][0] == s[1] && s[1..][1..] == s[2..];
    if s[1] == 'u' {
      c := OnlyUnits(s);
    } else {
      c := Short(s[1]);
      OnlyShort(s);
    }
  }

  lemma LongEnough(s: string)
    requires s != "" && s[0] == '\\' && JsonReader.WellEscaped(s)
    ensures |s| > 1 && (s[1] != 'u' ==> JsonReader.WellEscaped(s[2..]))
  {
  }

  lemma OnlyShort(s: string)
    requires |s| > 1 && s[0] == '\\'
    ensures s == ChrText(Short(s[1]), s[2..])
  {
  }

  lemma OnlyUnits(s: string) returns (c: Chr)
    requires |s| >= 2 && s[0] == '\\' && s[1] == 'u' && JsonReader.WellEscaped(s) && UnicodeEscape(s[2..]).Parsed?
    ensures (c.Unit? || c.Pair?) && ChrOk(c) && s == ChrText(c, UnicodeEscape(s[2..]).rest)
    ensures JsonReader.WellEscaped(UnicodeEscape(s[2..]).rest)
    ensures c.Unit? && High(Value(c.ds, 16)) ==> !("\\u" <= UnicodeEscape(s[2..]).rest)
  {
    var t := s[2..];
    WellUnit(s);
    var hex, ds := HexesOf(t);
    HexesAre(hex, ds, t[4..]);
    assert s == "\\" + ("u" + t);
    if High(Value(ds, 16)) && "\\u" <= t[4..] {
      var v := t[4..];
      WellUnit(v);
      assert v[2..] == t[6..] && t[6..][4..] == t[10..] && v == "\\u" + t[6..];
      var hex2, ds2 := HexesOf(t[6..]);
      c := Pair(hex, ds, hex2, ds2);
      hide Hexes, Value, Hex4, Utf8.Encode, JsonReader.WellEscaped;
    } else {
      c := Unit(hex, ds);
      hide Hexes, Value, Hex4, Utf8.Encode, JsonReader.WellEscaped;
    }
  }

  lemma WellUnit(s: string)
    requires |s| >= 2 && s[0] == '\\' && s[1] == 'u' && JsonReader.WellEscaped(s)
    ensures JsonReader.FourHex(s[2..]) && s[2..][4..] == s[6..] && JsonReader.WellEscaped(s[2..][4..])
  {
  }

  /** What a literal holds, up to its quote or, when there is none, to the end of the text. */
  lemma {:induction false} OnlyChars(s: string) returns (cs: seq<Chr>, open: bool)
    requires JsonReader.WellEscaped(s) && StringBody(s).Parsed?
    ensures CharsOk(cs) && StringBody(s).value == CharsMean(cs)
    ensures if open then s == CharsText(cs, "") && StringBody(s).rest == ""
            else s == CharsText(cs, "\"" + StringBody(s).rest)
    decreases |s|
  {
    if s == "" {
      cs, open := [], true;
    } else if s[0] == '\"' {
      cs, open := [], false;
      assert s == "\"" + s[1..];
    } else {
      var c, more := FirstChr(s);
      var tail;
      tail, open := OnlyChars(more);
      cs := [c] + tail;
      assert cs[1..] == tail;
      if tail != [] && (tail[0].Unit? || tail[0].Pair?) {
        UnitShows(tail, if open then "" else "\"" + StringBody(more).rest);
      }
      Longer(c, tail);
      hide StringBody, CharsOk, ChrText, ChrMeans, ChrOk, JsonReader.WellEscaped;
    }
  }

  lemma Longer(c: Chr, tail: seq<Chr>)
    requires ChrOk(c) && CharsOk(tail)
    requires c.Unit? && High(Value(c.ds, 16)) ==> tail == [] || (!tail[0].Unit? && !tail[0].Pair?)
    ensures CharsOk([c] + tail)
  {
    hide ChrOk, Value;
  }

  lemma FirstChr(s: string) returns (c: Chr, more: string)
    requires s != "" && s[0] != '\"' && JsonReader.WellEscaped(s) && StringBody(s).Parsed?
    ensures ChrOk(c) && s == ChrText(c, more) && |more| < |s|
    ensures JsonReader.WellEscaped(more) && StringBody(more).Parsed?
    ensures StringBody(s).value == ChrMeans(c) + StringBody(more).value && StringBody(s).rest == StringBody(more).rest
    ensures c.Unit? && High(Value(c.ds, 16)) ==> !("\\u" <= more)
  {
    hide Unescape, ChrText, Value, Utf8.Encode;
    if s[0] == '\\' {
      c := OnlyEscapes(s);
      more := Unescape(s[1..]).rest;
      ReadEscape(c, more);
    } else {
      c, more := Raw(s[0]), s[1..];
      RawShape(s);
    }
  }

  lemma RawShape(s: string)
    requires s != ""
    ensures s == ChrText(Raw(s[0]), s[1..])
  {
  }

  /** What is read is a document, or a string that the text ends in. */
  datatype Reading = Whole(doc: Doc) | Open(chars: seq<Chr>)

  ghost predicate Reads(r: Reading, s: string, v: Json, rest: string) {
    match r
    case Whole(d) => DocOk(d) && s == DocText(d, rest) && v == Meaning(d)
    case Open(cs) => CharsOk(cs) && s == "\"" + CharsText(cs, "") && v == String(CharsMean(cs)) && rest == ""
  }

  lemma OnlyScalars(s: string) returns (r: Reading)
    requires JsonReader.ScalarOk(s) && ParseScalar(s).Parsed?
    ensures Reads(r, s, ParseScalar(s).value, ParseScalar(s).rest)
  {
    hide JsonReader.WellEscaped, StringBody, ParseNumber, CharsText, CharsOk, CharsMean, NumText, IsNum, NumValue;
    if "null" <= s {
      r := Whole(NullDoc);
    } else if "false" <= s {
      r := Whole(FalseDoc);
    } else if "true" <= s {
      r := Whole(TrueDoc);
    } else if Head(s) == '\"' {
      var cs, open := OnlyChars(s[1..]);
      r := if open then Open(cs) else Whole(StringDoc(cs));
      assert s == "\"" + s[1..];
    } else {
      var n, rest := OnlyNumbers(s);
      r := Whole(NumberDoc(n));
    }
  }

  lemma {:induction false} OnlyDocs(s: string) returns (r: Reading)
    requires JsonReader.ValueOk(s) && ParseValue(s).Parsed?
    ensures Reads(r, s, ParseValue(s).value, ParseValue(s).rest)
    decreases |s|, 2
  {
    if Head(s) == '[' {
      r := OnlyArrays(s);
      hide ParseArray, JsonReader.ArrayOk, DocText, DocOk, Meaning;
    } else if Head(s) == '{' {
      r := OnlyObjects(s);
      hide ParseObject, JsonReader.ObjectOk, DocText, DocOk, Meaning;
    } else {
      r := OnlyScalars(s);
      hide ParseScalar, JsonReader.ScalarOk, DocText, DocOk, Meaning;
    }
  }

  lemma {:induction false} OnlyArrays(s: string) returns (r: Reading)
    requires Head(s) == '[' && JsonReader.ArrayOk(s) && ParseArray(s).Parsed?
    ensures r.Whole? && Reads(r, s, ParseArray(s).value, ParseArray(s).rest)
    decreases |s|, 1
  {
    hide ParseValue, MoreItems, Skip, Blank, JsonReader.FirstOk;
    var lead := SplitBlank(s[1..]);
    var t := Skip(s[1..]);
    assert s == "[" + s[1..];
    if Head(t) == ']' {
      r := Whole(ArrayDoc(lead, NoItemDoc));
      assert t == "]" + t[1..];
      assert DocText(r.doc, t[1..]) == s && DocOk(r.doc);
      assert ParseArray(s) == Parsed(Meaning(r.doc), t[1..]);
    } else {
      var items := OnlyItems(t);
      var end := MoreItems(Skip(ParseValue(t).rest)).rest;
      r := Whole(ArrayDoc(lead, items));
      assert end == "]" + end[1..];
      hide ItemsText, ItemsMean, ItemsOk;
      assert DocText(r.doc, end[1..]) == s;
      assert Skip(t) == t && ParseArray(s) == Parsed(Meaning(r.doc), end[1..]);
    }
  }

  lemma {:induction false} OnlyItems(t: string) returns (items: ItemDocs)
    requires JsonReader.FirstOk(t) && ParseValue(t).Parsed?
    requires var more := MoreItems(Skip(ParseValue(t).rest)); more.Parsed? && Head(more.rest) == ']'
    ensures var more := MoreItems(Skip(ParseValue(t).rest));
      && ItemsOk(items) && items.ItemDoc? && t == ItemsText(items, more.rest)
      && ItemsMean(items) == Item(ParseValue(t).value, more.value)
    decreases |t|, 3
  {
    var first := ParseValue(t);
    var r := OnlyDocs(t);
    var trail := SplitBlank(first.rest);
    var c := Skip(first.rest);
    assert r.Whole? by {
      assert Skip("") == "" && MoreItems("") == Parsed(NoItem, "");
    }
    if Head(c) != ',' {
      items := ItemDoc(r.doc, trail, "", NoItemDoc);
    } else {
      var lead := SplitBlank(c[1..]);
      var u := Skip(c[1..]);
      var more := OnlyItems(u);
      items := ItemDoc(r.doc, trail, lead, more);
      assert c == "," + c[1..];
    }
    hide ParseValue, Skip, Blank, DocText, DocOk, Meaning, JsonReader.ValueOk;
  }

  lemma {:induction false} OnlyObjects(s: string) returns (r: Reading)
    requires Head(s) == '{' && JsonReader.ObjectOk(s) && ParseObject(s).Parsed?
    ensures r.Whole? && Reads(r, s, ParseObject(s).value, ParseObject(s).rest)
    decreases |s|, 1
  {
    hide ParsePair, MoreMembers, Skip, Blank, JsonReader.FirstPairOk;
    var lead := SplitBlank(s[1..]);
    var t := Skip(s[1..]);
    assert s == "{" + s[1..];
    if Head(t) == '}' {
      r := Whole(ObjectDoc(lead, NoMemberDoc));
      assert t == "}" + t[1..];
      assert DocText(r.doc, t[1..]) == s && DocOk(r.doc);
      assert ParseObject(s) == Parsed(Meaning(r.doc), t[1..]);
    } else {
      var members := OnlyMembers(t);
      var end := MoreMembers(ParsePair(t).rest).rest;
      r := Whole(ObjectDoc(lead, members));
      assert end == "}" + end[1..];
      hide MembersText, MembersMean, MembersOk;
      assert DocText(r.doc, end[1..]) == s;
      assert ParseObject(s) == Parsed(Meaning(r.doc), end[1..]);
    }
  }

  lemma {:induction false} OnlyMembers(t: string) returns (members: MemberDocs)
    requires Skip(t) == t && JsonReader.FirstPairOk(t) && ParsePair(t).Parsed?
    requires var more := MoreMembers(ParsePair(t).rest); more.Parsed? && Head(more.rest) == '}'
    ensures var more := MoreMembers(ParsePair(t).rest);
      && MembersOk(members) && members.MemberDoc? && t == MembersText(members, more.rest)
      && MembersMean(members) == Member(ParsePair(t).value.0, ParsePair(t).value.1, more.value)
    decreases |t|, 4
  {
    hide ParsePair, Skip, Blank, DocText, DocOk, Meaning, StringText, CharsOk, CharsMean, JsonReader.PairOk;
    var first := ParsePair(t);
    NoMembers();
    var key, behind, before, value, trail := OnlyPairs(t);
    var c := first.rest;
    if Head(c) != ',' {
      NoBlank();
      members := MemberDoc(key, behind, before, value, trail, "", NoMemberDoc);
    } else {
      var lead := SplitBlank(c[1..]);
      var u := Skip(c[1..]);
      SamePair(c[1..], u);
      var more := OnlyMembers(u);
      members := MemberDoc(key, behind, before, value, trail, lead, more);
      assert c == "," + c[1..];
    }
  }

  lemma NoBlank()
    ensures Blank("")
  {
  }

  lemma NoMembers()
    ensures MoreMembers("") == Parsed(NoMember, "")
  {
  }

  lemma {:induction false} OnlyPairs(t: string)
    returns (key: seq<Chr>, behind: string, before: string, value: Doc, trail: string)
    requires Skip(t) == t && JsonReader.PairOk(t) && ParsePair(t).Parsed? && ParsePair(t).rest != ""
    ensures CharsOk(key) && Blank(behind) && Blank(before) && DocOk(value) && Blank(trail)
    ensures t == StringText(key, behind + (":" + (before + DocText(value, trail + ParsePair(t).rest))))
    ensures ParsePair(t).value == (CharsMean(key), Meaning(value))
    decreases |t|, 3
  {
    hide Skip, Blank, StringBody, CharsText, CharsOk, CharsMean, ParseValue, JsonReader.ValueOk, JsonReader.WellEscaped;
    hide DocText, DocOk, Meaning;
    var k := ParseString(t);
    var open;
    key, open := OnlyChars(t[1..]);
    behind := SplitBlank(k.rest);
    var u := Skip(k.rest);
    SkipNone("");
    before := SplitBlank(u[1..]);
    var v := Skip(u[1..]);
    var r := OnlyDocs(v);
    value := r.doc;
    trail := SplitBlank(ParseValue(v).rest);
    assert t == "\"" + t[1..] && u == ":" + u[1..];
  }

  // ----- whole texts -----

  /** A document with white space around it. */
  ghost predicate Spells(s: string, lead: string, d: Doc, trail: string) {
    Blank(lead) && DocOk(d) && Blank(trail) && s == lead + DocText(d, trail)
  }

  /** A string that is not closed before the text ends, which cJSON takes as well. */
  ghost predicate SpellsOpen(s: string, lead: string, cs: seq<Chr>) {
    Blank(lead) && CharsOk(cs) && s == lead + ("\"" + CharsText(cs, ""))
  }

  /** The text is a document that means `v`. */
  ghost predicate IsText(s: string, v: Json) {
    || (exists lead, d, trail :: Spells(s, lead, d, trail) && Meaning(d) == v)
    || (exists lead, cs :: SpellsOpen(s, lead, cs) && String(CharsMean(cs)) == v)
  }

  lemma SkipAll(w: string)
    requires Blank(w)
    ensures Skip(w) == ""
  {
    SkipBlank(w, "");
    assert w + "" == w;
  }

  lemma BlankEnds(w: string)
    requires Blank(w)
    ensures Ends(w)
  {
    TrailEnds(w, "");
    assert w + "" == w;
  }

  /** A document with white space around it is read as what it means. */
  lemma ReadText(s: string, lead: string, d: Doc, trail: string)
    requires Spells(s, lead, d, trail)
    ensures ParseText(s, true) == Parsed(Meaning(d), "") && JsonReader.ValueOk(Skip(s))
  {
    BlankEnds(trail);
    ReadDoc(d, trail);
    DocHead(d, trail);
    SkipBlank(lead, DocText(d, trail));
    SkipAll(trail);
    hide ParseValue, Skip, DocText, Meaning, DocOk, JsonReader.ValueOk;
  }

  lemma {:induction false} ReadOpenChars(cs: seq<Chr>)
    requires CharsOk(cs)
    ensures StringBody(CharsText(cs, "")) == Parsed(CharsMean(cs), "") && JsonReader.WellEscaped(CharsText(cs, ""))
    decreases |cs|
  {
    if cs != [] {
      var more := CharsText(cs[1..], "");
      Tail(cs);
      ReadOpenChars(cs[1..]);
      ChrWell(cs[0], more);
      if cs[0].Raw? {
        RawText(cs[0].c, more);
      } else {
        if cs[0].Unit? && High(Value(cs[0].ds, 16)) {
          assert |cs| > 1 ==> !cs[1].Unit? && !cs[1].Pair?;
          NoUnitOpen(cs[1..]);
        }
        ReadEscape(cs[0], more);
        hide Unescape, ChrText, ChrMeans, JsonReader.WellEscaped;
      }
    }
  }

  lemma RawText(c: char, more: string)
    ensures ChrText(Raw(c), more)[0] == c && ChrText(Raw(c), more)[1..] == more
  {
  }

  lemma NoUnitOpen(s: seq<Chr>)
    requires CharsOk(s) && (s != [] ==> !s[0].Unit? && !s[0].Pair?)
    ensures !("\\u" <= CharsText(s, ""))
  {
    if s != [] {
      assert ChrOk(s[0]);
      var t := ChrText(s[0], CharsText(s[1..], ""));
      if s[0].Raw? {
        assert t[0] == s[0].c;
      } else {
        assert t[1] == s[0].c;
      }
    }
  }

  lemma ReadOpenText(s: string, lead: string, cs: seq<Chr>)
    requires SpellsOpen(s, lead, cs)
    ensures ParseText(s, true) == Parsed(String(CharsMean(cs)), "") && JsonReader.ValueOk(Skip(s))
  {
    hide Skip, StringBody, CharsText, CharsMean, CharsOk, JsonReader.WellEscaped, Blank;
    var t := "\"" + CharsText(cs, "");
    ReadOpenChars(cs);
    assert t[1..] == CharsText(cs, "");
    SkipBlank(lead, t);
    SkipNone("");
    QuoteFirst(t);
  }

  lemma QuoteFirst(t: string)
    requires Head(t) == '\"' && StringBody(t[1..]).Parsed? && JsonReader.WellEscaped(t[1..])
    ensures ParseValue(t) == Parsed(String(StringBody(t[1..]).value), StringBody(t[1..]).rest)
    ensures JsonReader.ValueOk(t)
  {
    hide StringBody, JsonReader.WellEscaped;
  }

  /**
   The parser, told to read to the end of the text, accepts exactly the texts that spell a document, and reads each as
   what it means: white space never matters, and every text of RFC 8259 is among them.
   */
  lemma AcceptsExactly(s: string, v: Json)
    requires JsonReader.ValueOk(Skip(s))
    ensures ParseText(s, true) == Parsed(v, "") <==> IsText(s, v)
  {
    hide *;
    if ParseText(s, true) == Parsed(v, "") {
      OnlyTexts(s);
    }
    if IsText(s, v) {
      TextIs(s, v);
    }
  }

  lemma TextIs(s: string, v: Json)
    requires IsText(s, v)
    ensures ParseText(s, true) == Parsed(v, "") && JsonReader.ValueOk(Skip(s))
  {
    hide ParseText, Meaning, CharsMean, JsonReader.ValueOk, Skip, Blank, DocText, CharsText;
    if lead, d, trail :| Spells(s, lead, d, trail) && Meaning(d) == v {
      ReadText(s, lead, d, trail);
    } else {
      var lead, cs :| SpellsOpen(s, lead, cs) && String(CharsMean(cs)) == v;
      ReadOpenText(s, lead, cs);
    }
  }

  lemma OnlyTexts(s: string)
    requires JsonReader.ValueOk(Skip(s)) && ParseText(s, true).Parsed?
    ensures IsText(s, ParseText(s, true).value)
  {
    var lead := SplitBlank(s);
    var t := Skip(s);
    var r := OnlyDocs(t);
    var rest := ParseValue(t).rest;
    var trail := SplitBlank(rest);
    assert trail + "" == trail;
    match r {
      case Whole(d) => assert Spells(s, lead, d, rest);
      case Open(cs) => assert SpellsOpen(s, lead, cs);
    }
    hide ParseValue, DocText, DocOk, Meaning, CharsText, CharsOk, CharsMean, Blank, JsonReader.ValueOk;
  }

  /** What is in the domain of the parser, and what is in it and not accepted. */
  method Parse(s: string) returns (root: JsonItem.CJson?)
    requires NulFree(s) && JsonReader.ValueOk(Skip(s))
    ensures root != null ==> fresh(root) && root.Valid() && IsText(s, root.View())
    ensures root == null ==> forall v :: !IsText(s, v)
  {
    hide *;
    var end;
    root, end := JsonReader.ParseWithOpts(s, true);
    if root == null {
      forall v
        ensures !IsText(s, v)
      {
        AcceptsExactly(s, v);
      }
    } else {
      EndsEmpty(s);
      AcceptsExactly(s, root.View());
    }
  }

  lemma EndsEmpty(s: string)
    ensures ParseText(s, true).Parsed? ==> ParseText(s, true).rest == ""
  {
  }

  /** How the printers escape a character: by its name, or by four digits of which the letters are small. */
  lemma EscapeIs(c: char)
    ensures c == '\"' || c == '\\' ==> Escape(c) == ['\\', c]
    ensures 8 <= c as int <= 13 && c as int != 11 ==> exists d :: Named(d) == c && d != c && Escape(c) == ['\\', d]
    ensures c < ' ' && !(8 <= c as int <= 13 && c as int != 11) ==>
      Escape(c) == "\\u00" + [Lower(c as int / 16), Lower(c as int % 16)]
    ensures c >= ' ' && c != '\"' && c != '\\' ==> Escape(c) == [c]
  {
    if 8 <= c as int <= 13 && c as int != 11 {
      var d := if c as int == 8 then 'b' else if c as int == 9 then 't' else if c as int == 10 then 'n'
        else if c as int == 12 then 'f' else 'r';
      assert Named(d) == c && Escape(c) == ['\\', d];
    } else if c < ' ' {
      assert JsonText.HexDigit(c as int / 16) == Lower(c as int / 16);
      assert JsonText.HexDigit(c as int % 16) == Lower(c as int % 16);
    }
  }
}
