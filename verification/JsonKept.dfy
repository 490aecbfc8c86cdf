/** Minifying a document does not change what it means. */
module JsonKept {
  import Seqs
  import opened CText
  import opened JsonMinify
  import opened JsonNumber
  import opened JsonSyntax
  import opened JsonPieces
  import opened Numerals
  import JsonParse

  /** White space as section 2 of RFC 8259 has it. */
  predicate Spaces(w: string) {
    forall i :: 0 <= i < |w| ==> IsSpaceOrBreak(w[i])
  }

  predicate Spaced(d: Doc)
    decreases d
  {
    match d
    case ArrayDoc(lead, items) => Spaces(lead) && SpacedItems(items)
    case ObjectDoc(lead, members) => Spaces(lead) && SpacedMembers(members)
    case _ => true
  }

  predicate SpacedItems(items: ItemDocs)
    decreases items
  {
    match items
    case NoItemDoc => true
    case ItemDoc(value, trail, lead, more) => Spaced(value) && Spaces(trail) && Spaces(lead) && SpacedItems(more)
  }

  predicate SpacedMembers(members: MemberDocs)
    decreases members
  {
    match members
    case NoMemberDoc => true
    case MemberDoc(_, behind, before, value, trail, lead, more) =>
      Spaces(behind) && Spaces(before) && Spaced(value) && Spaces(trail) && Spaces(lead) && SpacedMembers(more)
  }

  /** The document without its white space. */
  function Bare(d: Doc): Doc
    decreases d
  {
    match d
    case ArrayDoc(_, items) => ArrayDoc("", BareItems(items))
    case ObjectDoc(_, members) => ObjectDoc("", BareMembers(members))
    case _ => d
  }

  function BareItems(items: ItemDocs): ItemDocs
    decreases items
  {
    match items
    case NoItemDoc => NoItemDoc
    case ItemDoc(value, _, _, more) => ItemDoc(Bare(value), "", "", BareItems(more))
  }

  function BareMembers(members: MemberDocs): MemberDocs
    decreases members
  {
    match members
    case NoMemberDoc => NoMemberDoc
    case MemberDoc(key, _, _, value, _, _, more) => MemberDoc(key, "", "", Bare(value), "", "", BareMembers(more))
  }

  lemma {:induction false} BareSame(d: Doc)
    requires DocOk(d)
    ensures DocOk(Bare(d)) && Meaning(Bare(d)) == Meaning(d)
    decreases d
  {
    match d
    case ArrayDoc(_, items) => BareItemsSame(items);
    case ObjectDoc(_, members) => BareMembersSame(members);
    case _ =>
  }

  lemma {:induction false} BareItemsSame(items: ItemDocs)
    requires ItemsOk(items)
    ensures ItemsOk(BareItems(items)) && ItemsMean(BareItems(items)) == ItemsMean(items)
    decreases items
  {
    if items.ItemDoc? {
      BareSame(items.value);
      BareItemsSame(items.more);
    }
  }

  lemma {:induction false} BareMembersSame(members: MemberDocs)
    requires MembersOk(members)
    ensures MembersOk(BareMembers(members)) && MembersMean(BareMembers(members)) == MembersMean(members)
    decreases members
  {
    if members.MemberDoc? {
      BareSame(members.value);
      BareMembersSame(members.more);
    }
  }

  // ----- the tokens -----

  lemma {:induction false} SpacesGone(w: string, rest: string)
    requires Spaces(w) && Closed(rest)
    ensures Closed(w + rest) && Minified(w + rest) == Minified(rest)
    decreases |w|
  {
    hide Closed, Minified;
    if w == "" {
      assert w + rest == rest;
    } else {
      SpacesGone(w[1..], rest);
      SpaceGone(w[0], w[1..] + rest);
      assert w + rest == [w[0]] + (w[1..] + rest);
    }
  }

  lemma DigitPlain(d: nat)
    requires d < 16
    ensures Plain(Lower(d)) && Plain(Upper(d)) && Lower(d) != '\\' && Upper(d) != '\\'
  {
  }

  lemma {:induction false} DecimalPlain(ds: seq<nat>)
    requires Digits(ds, 10)
    ensures forall i :: 0 <= i < |Decimal(ds)| ==> Plain(Decimal(ds)[i])
  {
    hide Lower, Plain;
    if ds != [] {
      DigitPlain(ds[0]);
      DecimalPlain(ds[1..]);
    }
  }

  predicate AllPlain(s: string) {
    forall i :: 0 <= i < |s| ==> Plain(s[i])
  }

  lemma PlainCat(a: string, b: string)
    requires AllPlain(a) && AllPlain(b)
    ensures AllPlain(a + b)
  {
  }

  lemma ExpPlain(e: Exp)
    requires IsExp(e)
    ensures AllPlain(ExpText(e))
  {
    if e.Exp? {
      DecimalPlain(e.power);
      PlainCat(e.sign, Decimal(e.power));
      PlainCat([e.letter], e.sign + Decimal(e.power));
    }
    hide Decimal;
  }

  lemma FractionPlain(ds: seq<nat>)
    requires Digits(ds, 10)
    ensures AllPlain(FractionText(ds))
  {
    DecimalPlain(ds);
    PlainCat(".", Decimal(ds));
    hide Decimal;
  }

  lemma NumberPlain(n: Num)
    requires IsNum(n)
    ensures AllPlain(NumText(n))
  {
    DecimalPlain(n.digits);
    FractionPlain(n.fraction);
    ExpPlain(n.exponent);
    hide FractionText, ExpText, Decimal;
    var f, z := FractionText(n.fraction) + ExpText(n.exponent), if n.zero then "0" else "";
    PlainCat(FractionText(n.fraction), ExpText(n.exponent));
    PlainCat(Decimal(n.digits), f);
    PlainCat(z, Decimal(n.digits) + f);
    PlainCat(if n.minus then "-" else "", z + (Decimal(n.digits) + f));
  }

  // ----- strings -----

  lemma {:induction false} InsideCat(hex: string, t: string)
    requires Inside(t) && forall i :: 0 <= i < |hex| ==> hex[i] != '\\' && hex[i] != '\"'
    ensures Inside(hex + t)
    decreases |hex|
  {
    if hex == "" {
      assert hex + t == t;
    } else {
      assert (hex + t)[0] == hex[0] && (hex + t)[1..] == hex[1..] + t;
      InsideCat(hex[1..], t);
    }
  }

  lemma HexesInside(hex: string, ds: seq<nat>, t: string)
    requires Hexes(hex, ds) && Inside(t)
    ensures Inside("\\" + ("u" + (hex + t)))
  {
    forall i | 0 <= i < |hex|
      ensures hex[i] != '\\' && hex[i] != '\"'
    {
      DigitPlain(ds[i]);
    }
    InsideCat(hex, t);
    var s := "\\" + ("u" + (hex + t));
    assert s[2..] == hex + t;
  }

  lemma ChrInside(c: Chr, t: string)
    requires ChrOk(c) && Inside(t)
    ensures Inside(ChrText(c, t))
  {
    var s := ChrText(c, t);
    match c
    case Raw(_) => assert s[1..] == t;
    case Short(_) => assert s[2..] == t;
    case Unit(hex, ds) => HexesInside(hex, ds, t);
    case Pair(hex, ds, hex2, ds2) =>
      HexesInside(hex2, ds2, t);
      assert "\\u" + (hex2 + t) == "\\" + ("u" + (hex2 + t));
      HexesInside(hex, ds, "\\u" + (hex2 + t));
  }

  lemma ChrCat(c: Chr, a: string, b: string)
    ensures ChrText(c, a + b) == ChrText(c, a) + b
  {
    match c
    case Raw(x) => Seqs.Assoc([x], a, b);
    case Short(x) =>
      Seqs.Assoc([x], a, b);
      Seqs.Assoc("\\", [x] + a, b);
    case Unit(hex, _) =>
      Seqs.Assoc(hex, a, b);
      Seqs.Assoc("u", hex + a, b);
      Seqs.Assoc("\\", "u" + (hex + a), b);
    case Pair(hex, _, hex2, _) =>
      Seqs.Assoc(hex2, a, b);
      Seqs.Assoc("\\u", hex2 + a, b);
      Seqs.Assoc(hex, "\\u" + (hex2 + a), b);
      Seqs.Assoc("u", hex + ("\\u" + (hex2 + a)), b);
      Seqs.Assoc("\\", "u" + (hex + ("\\u" + (hex2 + a))), b);
  }

  lemma {:induction false} CharsInside(cs: seq<Chr>, rest: string)
    requires CharsOk(cs)
    ensures Inside(CharsText(cs, "")) && CharsText(cs, rest) == CharsText(cs, "") + rest
    decreases |cs|
  {
    if cs == [] {
      assert "" + rest == rest;
    } else {
      Tail(cs);
      CharsInside(cs[1..], rest);
      ChrInside(cs[0], CharsText(cs[1..], ""));
      ChrCat(cs[0], CharsText(cs[1..], ""), rest);
      hide ChrText, Inside;
    }
  }

  lemma StringKept(cs: seq<Chr>, rest: string)
    requires CharsOk(cs) && Closed(rest)
    ensures Closed(StringText(cs, rest)) && Minified(StringText(cs, rest)) == StringText(cs, Minified(rest))
  {
    CharsInside(cs, "\"" + rest);
    CharsInside(cs, "\"" + Minified(rest));
    LiteralKept(CharsText(cs, ""), rest);
    hide Closed, Minified, CharsText, CharsOk;
  }

  // ----- documents -----

  lemma {:induction false} DocKept(d: Doc, rest: string)
    requires DocOk(d) && Spaced(d) && DocOk(Bare(d)) && Closed(rest)
    ensures Closed(DocText(d, rest)) && Minified(DocText(d, rest)) == DocText(Bare(d), Minified(rest))
    decreases d, 1
  {
    hide Closed, Minified, AllPlain;
    Words();
    match d
    case NullDoc => WordKept("null", rest);
    case FalseDoc => WordKept("false", rest);
    case TrueDoc => WordKept("true", rest);
    case NumberDoc(num) =>
      NumberPlain(num);
      WordKept(NumText(num), rest);
    case StringDoc(s) => StringKept(s, rest);
    case ArrayDoc(lead, items) =>
      WordKept("]", rest);
      ItemsKept(items, "]" + rest);
      SpacesGone(lead, ItemsText(items, "]" + rest));
      WordKept("[", lead + ItemsText(items, "]" + rest));
      NoLead(ItemsText(BareItems(items), "]" + Minified(rest)));
    case ObjectDoc(lead, members) =>
      WordKept("}", rest);
      MembersKept(members, "}" + rest);
      SpacesGone(lead, MembersText(members, "}" + rest));
      WordKept("{", lead + MembersText(members, "}" + rest));
      NoLead(MembersText(BareMembers(members), "}" + Minified(rest)));
  }

  lemma Words()
    ensures AllPlain("null") && AllPlain("false") && AllPlain("true")
    ensures AllPlain("[") && AllPlain("]") && AllPlain("{") && AllPlain("}")
  {
  }

  lemma NoLead(s: string)
    ensures "" + s == s
  {
  }

  lemma WordKept(w: string, rest: string)
    requires Closed(rest) && AllPlain(w)
    ensures Closed(w + rest) && Minified(w + rest) == w + Minified(rest)
  {
    PlainCopied(w, rest);
  }

  lemma {:induction false} ItemsKept(items: ItemDocs, rest: string)
    requires ItemsOk(items) && SpacedItems(items) && ItemsOk(BareItems(items)) && Closed(rest)
    ensures Closed(ItemsText(items, rest))
      && Minified(ItemsText(items, rest)) == ItemsText(BareItems(items), Minified(rest))
    decreases items, 0
  {
    hide Closed, Minified, Plain;
    if items.ItemDoc? {
      var c := CommaItems(items.lead, items.more, rest);
      if items.more.ItemDoc? {
        ItemsKept(items.more, rest);
        var u := ItemsText(items.more, rest);
        SpacesGone(items.lead, u);
        CommaKept(items.lead + u);
        NoLead(Minified(u));
      }
      SpacesGone(items.trail, c);
      DocKept(items.value, items.trail + c);
      NoLead(Minified(c));
    }
  }

  lemma CommaKept(rest: string)
    requires Closed(rest)
    ensures Closed("," + rest) && Minified("," + rest) == "," + Minified(rest)
  {
    WordKept(",", rest);
  }

  lemma {:induction false} MembersKept(members: MemberDocs, rest: string)
    requires MembersOk(members) && SpacedMembers(members) && MembersOk(BareMembers(members)) && Closed(rest)
    ensures Closed(MembersText(members, rest))
    ensures Minified(MembersText(members, rest)) == MembersText(BareMembers(members), Minified(rest))
    decreases members, 0
  {
    hide Closed, Minified, Plain, StringText, CharsOk;
    if members.MemberDoc? {
      var c := CommaMembers(members.lead, members.more, rest);
      if members.more.MemberDoc? {
        MembersKept(members.more, rest);
        var u := MembersText(members.more, rest);
        SpacesGone(members.lead, u);
        CommaKept(members.lead + u);
        NoLead(Minified(u));
      }
      PairKept(members, c);
    }
  }

  lemma {:induction false} PairKept(m: MemberDocs, c: string)
    requires m.MemberDoc? && MembersOk(m) && SpacedMembers(m) && DocOk(Bare(m.value)) && Closed(c)
    ensures var s := StringText(m.key, m.behind + (":" + (m.before + DocText(m.value, m.trail + c))));
      && Closed(s)
      && Minified(s) == StringText(m.key, "" + (":" + ("" + DocText(Bare(m.value), "" + Minified(c)))))
    decreases m.value, 2
  {
    hide Closed, Minified, Plain, StringText, CharsOk, DocText;
    var v := DocText(m.value, m.trail + c);
    SpacesGone(m.trail, c);
    DocKept(m.value, m.trail + c);
    SpacesGone(m.before, v);
    ColonKept(m.before + v);
    SpacesGone(m.behind, ":" + (m.before + v));
    StringKept(m.key, m.behind + (":" + (m.before + v)));
    NoLead(Minified(c));
    NoLead(DocText(Bare(m.value), Minified(c)));
    NoLead(":" + DocText(Bare(m.value), Minified(c)));
  }

  lemma ColonKept(rest: string)
    requires Closed(rest)
    ensures Closed(":" + rest) && Minified(":" + rest) == ":" + Minified(rest)
  {
    WordKept(":", rest);
  }

  /** The minified text of a document is the document without its white space, and means the same. */
  lemma MeaningKept(s: string, lead: string, d: Doc, trail: string)
    requires Spells(s, lead, d, trail) && Spaces(lead) && Spaced(d) && Spaces(trail)
    ensures Closed(s) && DocOk(Bare(d)) && Minified(s) == DocText(Bare(d), "")
    ensures JsonParse.ParseText(Minified(s), true) == JsonParse.ParseText(s, true) == JsonParse.Parsed(Meaning(d), "")
  {
    hide Closed, Minified, DocText, Meaning, DocOk, Spaced;
    Nothing();
    SpacesGone(trail, "");
    assert trail + "" == trail;
    BareSame(d);
    DocKept(d, trail);
    SpacesGone(lead, DocText(d, trail));
    ReadText(s, lead, d, trail);
    NoLead(DocText(Bare(d), ""));
    assert Spells(Minified(s), "", Bare(d), "");
    ReadText(Minified(s), "", Bare(d), "");
  }
}
