/**
 Text as it may be written in a document: characters, line ends, and references
 to characters by number or by name; and what the decoder makes of it.
 */
module XmlReferences {
  import Seqs
  import opened CText
  import opened Numerals
  import opened XmlEntities
  import opened XmlDecode
  import opened XmlEncode
  import opened XmlText
  import Utf8
  import Utf8Bits

  // ----- numbers -----

  lemma DigitIs(c: char, d: nat, base: nat)
    requires d < base && (base == 10 || base == 16) && (c == Lower(d) || c == Upper(d))
    ensures IsDigitIn(c, base) && DigitIn(c, base) == d && c != ';' && !IsSpace(c) && c != '+' && c != 'x' && c != 'X'
    ensures c == '0' ==> d == 0
  {
  }

  lemma {:induction false} OntoGrows(acc: nat, ds: seq<nat>, base: nat)
    requires base > 0
    ensures Onto(acc, ds, base) >= acc
    decreases |ds|
  {
    hide Onto;
    if ds == [] {
      TakeNone(acc, base);
    } else {
      TakeOne(acc, ds, base);
      OntoGrows(acc * base + ds[0], ds[1..], base);
      TimesGrows(acc, base);
    }
  }

  lemma TimesGrows(a: nat, b: nat)
    requires b > 0
    ensures a * b >= a
  {
  }

  /** A number stops at the largest `long`. */
  function AtMost(v: nat): nat {
    if v < 0x7FFF_FFFF then v else 0x7FFF_FFFF
  }

  /** `strtol` reads the digits of a number of any length. */
  lemma {:induction false} StrtolIs(acc: nat, s: string, ds: seq<nat>, base: nat, rest: string)
    requires Denotes(s, ds, base) && (base == 10 || base == 16) && acc <= LONG_MAX
    requires rest == "" || !IsDigitIn(rest[0], base)
    ensures Strtol(acc, s + rest, base) == Numeral(AtMost(Onto(acc, ds, base)), rest)
    decreases |s|
  {
    hide Onto, IsDigitIn, DigitIn, Lower, Upper;
    if s == "" {
      assert s + rest == rest;
      TakeNone(acc, base);
    } else {
      var next := acc * base + ds[0];
      DigitIs(s[0], ds[0], base);
      DenotesTail(s, ds, base);
      assert (s + rest)[0] == s[0] && (s + rest)[1..] == s[1..] + rest;
      StrtolIs(Capped(next), s[1..], ds[1..], base, rest);
      TakeOne(acc, ds, base);
      OntoGrows(next, ds[1..], base);
      OntoGrows(Capped(next), ds[1..], base);
    }
  }

  /** What may stand in front of the digits: white space, a plus sign and, in base 16, `0x`. */
  datatype Front = Front(blanks: string, plus: bool, prefix: string)

  predicate FrontOk(f: Front, base: nat) {
    && (forall i :: 0 <= i < |f.blanks| ==> IsSpace(f.blanks[i]))
    && (f.prefix == "" || (base == 16 && (f.prefix == "0x" || f.prefix == "0X")))
  }

  function FrontText(f: Front): string {
    f.blanks + ((if f.plus then "+" else "") + f.prefix)
  }

  lemma {:induction false} BlanksAre(w: string, t: string)
    requires (forall i :: 0 <= i < |w| ==> IsSpace(w[i])) && (t == "" || !IsSpace(t[0]))
    ensures Blanks(w + t) == |w|
    decreases |w|
  {
    if w == "" {
      assert w + t == t;
    } else {
      assert (w + t)[0] == w[0] && (w + t)[1..] == w[1..] + t;
      BlanksAre(w[1..], t);
    }
  }

  /** Digits in front of something that is no digit and no `x`. */
  lemma DigitsFirst(s: string, ds: seq<nat>, base: nat, rest: string)
    requires Denotes(s, ds, base) && (base == 10 || base == 16) && s != "" && rest != "" && rest[0] == ';'
    ensures var t := s + rest;
      IsDigitIn(t[0], base) && !IsSpace(t[0]) && t[0] != '+' && t[0] != 'x' && !HexPrefix(t, 0)
  {
    var t := s + rest;
    DigitIs(s[0], ds[0], base);
    if |s| > 1 {
      DigitIs(s[1], ds[1], base);
      assert t[1] == s[1];
    } else {
      assert t[1] == ';';
    }
    hide Lower, Upper, IsDigitIn, DigitIn;
  }

  lemma LeadIs(f: Front, s: string, ds: seq<nat>, base: nat, rest: string)
    requires FrontOk(f, base) && Denotes(s, ds, base) && (base == 10 || base == 16) && s != ""
    requires rest != "" && rest[0] == ';'
    ensures Lead(FrontText(f) + (s + rest), base) == |FrontText(f)|
  {
    hide Denotes, IsDigitIn, Blanks, HexPrefix;
    var t := s + rest;
    var plus := if f.plus then "+" else "";
    var u := plus + (f.prefix + t);
    DigitsFirst(s, ds, base, rest);
    Seqs.Assoc(f.blanks, plus + f.prefix, t);
    Seqs.Assoc(plus, f.prefix, t);
    FrontFirst(f, t);
    BlanksAre(f.blanks, u);
    LeadFrom(f.blanks, u, f.plus, f.prefix, t, base);
  }

  lemma FrontFirst(f: Front, t: string)
    requires t != "" && !IsSpace(t[0]) && (f.prefix == "" || f.prefix == "0x" || f.prefix == "0X")
    ensures !IsSpace(((if f.plus then "+" else "") + (f.prefix + t))[0])
  {
    var u := (if f.plus then "+" else "") + (f.prefix + t);
    if f.plus {
      assert u[0] == '+';
    } else if f.prefix != "" {
      assert u[0] == '0';
    } else {
      assert u[0] == t[0];
    }
  }

  lemma LeadFrom(w: string, u: string, plus: bool, prefix: string, t: string, base: nat)
    requires u == (if plus then "+" else "") + (prefix + t) && Blanks(w + u) == |w|
    requires prefix == "" || (base == 16 && (prefix == "0x" || prefix == "0X"))
    requires t != "" && t[0] != '+' && !HexPrefix(t, 0) && IsDigitIn(t[0], base)
    ensures Lead(w + u, base) == |w| + |if plus then "+" else ""| + |prefix|
  {
    hide IsDigitIn, Blanks;
    var p, n := w + u, |w| + if plus then 1 else 0;
    assert p[|w|] == u[0] && p[n..] == prefix + t;
    if prefix == "" {
      assert p[n..] == t;
      SamePrefix(p, n, t);
    } else {
      assert p[n] == p[n..][0] && p[n + 1] == p[n..][1] && p[n + 2] == p[n..][2] == t[0];
    }
  }

  lemma SamePrefix(p: string, n: nat, t: string)
    requires n <= |p| && p[n..] == t
    ensures HexPrefix(p, n) == HexPrefix(t, 0)
  {
    assert forall k :: 0 <= k < |t| ==> p[n + k] == t[k];
  }

  /** A number, whatever may stand in front of it, up to a semicolon. */
  lemma NumberIs(f: Front, s: string, ds: seq<nat>, base: nat, rest: string)
    requires FrontOk(f, base) && Denotes(s, ds, base) && (base == 10 || base == 16) && s != ""
    requires rest != "" && rest[0] == ';'
    ensures Number(FrontText(f) + (s + rest), base) == Numeral(AtMost(Value(ds, base)), rest)
  {
    LeadIs(f, s, ds, base, rest);
    var p := FrontText(f) + (s + rest);
    assert p[|FrontText(f)|..] == s + rest;
    StrtolIs(0, s, ds, base, rest);
    FromNothing(ds, base);
    hide Lead, Strtol, Onto, FrontText, Denotes;
  }

  // ----- references by number -----

  /** A reference by number, in front of `rest`. */
  function NumberRef(f: Front, s: string, base: nat, rest: string): string {
    (if base == 16 then "&#x" else "&#") + (FrontText(f) + (s + (";" + rest)))
  }

  predicate IsNumeral(f: Front, s: string, ds: seq<nat>, base: nat) {
    (base == 10 || base == 16) && FrontOk(f, base) && Denotes(s, ds, base) && s != "" && Value(ds, base) > 0
  }

  lemma NumberRefIs(f: Front, s: string, ds: seq<nat>, base: nat, rest: string)
    requires IsNumeral(f, s, ds, base)
    ensures var p := NumberRef(f, s, base, rest);
      "&#" <= p && CharRefAt(p) == CharRef(AtMost(Value(ds, base))) && ';' in p && Behind(p) == rest
  {
    hide Denotes, Value, FrontText, Number, IsDigitIn;
    var q := FrontText(f) + (s + (";" + rest));
    var p := NumberRef(f, s, base, rest);
    NumberIs(f, s, ds, base, ";" + rest);
    assert (";" + rest)[1..] == rest;
    NumberSemi(q, base);
    if base == 16 {
      assert p[2..] == "x" + q && p[3..] == q;
      BehindFrom(p, 3);
    } else {
      assert p[2..] == q;
      NoX(f, s, ds, ";" + rest);
      BehindFrom(p, 2);
    }
  }

  lemma NoX(f: Front, s: string, ds: seq<nat>, rest: string)
    requires FrontOk(f, 10) && Denotes(s, ds, 10) && s != ""
    ensures Head(FrontText(f) + (s + rest)) != 'x'
  {
    DigitIs(s[0], ds[0], 10);
    hide Denotes, IsDigitIn, Lower, Upper, DigitIn;
    var p := FrontText(f) + (s + rest);
    if f.blanks != "" {
      assert p[0] == f.blanks[0];
    } else if f.plus {
      assert p[0] == '+';
    } else {
      assert p[0] == s[0];
    }
  }

  /**
   A reference by number, in decimal or in hexadecimal digits of either case, is replaced by the UTF-8 form of the code
   point it names.
   */
  lemma NumberReplaced(f: Front, s: string, ds: seq<nat>, base: nat, rest: string, ents: seq<Entity>, rank: seq<nat>,
                       n: nat, t: char)
    requires IsNumeral(f, s, ds, base) && Value(ds, base) < 0x110000 && |rank| == |ents| && t != 'c'
    ensures Expand(NumberRef(f, s, base, rest), ents, rank, n, t).text
         == Utf8.Encode(Value(ds, base)) + Expand(rest, ents, rank, n, t).text
  {
    NumberRefIs(f, s, ds, base, rest);
    Utf8Bits.BitsAreUtf8(Value(ds, base));
    ExpandStep(NumberRef(f, s, base, rest), ents, rank, n, t);
    hide IsNumeral, Value, Utf8.Encode, Utf8Bits.BitEncode, CharRefAt, Expand, NumberRef;
  }

  // ----- references by name -----

  /** The predefined entities of section 4.6 of the XML recommendation. */
  predicate IsNamed(name: string, c: char) {
    || (name == "lt" && c == '<') || (name == "gt" && c == '>') || (name == "quot" && c == '\"')
    || (name == "apos" && c == 39 as char) || (name == "amp" && c == '&')
  }

  lemma PredefinedAt(name: string, c: char) returns (b: nat)
    requires IsNamed(name, c)
    ensures b < |DEFAULTS| && DEFAULTS[b].name == name + ";" && 0 < c as nat < 0x80
    ensures "&#" <= DEFAULTS[b].value && CharRefAt(DEFAULTS[b].value) == CharRef(c as nat) && OneSemi(DEFAULTS[b].value)
  {
    hide CharRefAt, OneSemi;
    Numbers();
    DecimalRef("&#39;");
    b := if c == '<' then 0 else if c == '>' then 1 else if c == '\"' then 2 else if c == '&' then 4 else 3;
    ValueShape(b);
  }

  function NameRef(name: string, rest: string): string {
    "&" + (name + (";" + rest))
  }

  lemma NameBehind(name: string, rest: string)
    requires ';' !in name
    ensures ';' in NameRef(name, rest) && Behind(NameRef(name, rest)) == rest
  {
    var p := NameRef(name, rest);
    var i := |name| + 1;
    assert p[i..] == ";" + rest && (";" + rest)[1..] == rest;
    assert forall k :: 0 < k < i ==> p[k] == name[k - 1];
    BehindFrom(p, i);
  }

  /** A reference to a predefined entity is replaced by its character. */
  lemma NameReplaced(name: string, c: char, rest: string, ents: seq<Entity>, rank: seq<nat>, n: nat, t: char)
    requires IsNamed(name, c) && Bounded(ents, rank, n) && t != 'c'
    ensures Expand(NameRef(name, rest), ents, rank, n, t).text == [c] + Expand(rest, ents, rank, n, t).text
  {
    hide Expand, CharRefAt, Usable, Match, OneSemi, IsNamed, NameRef, Below;
    var p := NameRef(name, rest);
    var b := PredefinedAt(name, c);
    NameStart(name, c, rest);
    DefaultMatch(p[1..], ents, b);
    NameBehind(name, rest);
    RankBelow(ents, rank, n, b);
    ExpandChar(DEFAULTS[b].value, ents, rank, rank[b], c, t);
    EntityStep(p, ents, rank, n, t, b, rest);
  }

  lemma RankBelow(ents: seq<Entity>, rank: seq<nat>, n: nat, b: nat)
    requires Bounded(ents, rank, n) && b < |ents|
    ensures |rank| == |ents| && rank[b] < n
  {
  }

  /** One reference to an entity. */
  lemma EntityStep(p: string, ents: seq<Entity>, rank: seq<nat>, n: nat, t: char, b: nat, rest: string)
    requires |rank| == |ents| && b < |ents| && rank[b] < n && t != 'c'
    requires p != "" && p[0] == '&' && !("&#" <= p) && Match(p[1..], ents) == b && ';' in p && Behind(p) == rest
    ensures Expand(p, ents, rank, n, t).text
         == Expand(ents[b].value, ents, rank, rank[b], t).text + Expand(rest, ents, rank, n, t).text
  {
    ExpandStep(p, ents, rank, n, t);
    assert RefAt(p, ents) == EntRef(b);
    var v := Expand(ents[b].value, ents, rank, rank[b], t).text;
    assert "" + v == v;
    hide Expand, Match, CharRefAt;
  }

  lemma NameStart(name: string, c: char, rest: string)
    requires IsNamed(name, c)
    ensures var p := NameRef(name, rest); p != "" && name + ";" <= p[1..] && p[0] == '&' && !("&#" <= p) && ';' !in name
  {
    var p := NameRef(name, rest);
    assert p[1..] == name + ";" + rest;
    assert p[1] == name[0];
  }

  /**
   A reference to a declared entity is replaced by what its value is replaced by; a value without ampersands by itself.
   */
  lemma DeclaredReplaced(b: nat, rest: string, ents: seq<Entity>, rank: seq<nat>, n: nat)
    requires |rank| == |ents| && b < |ents| && rank[b] < n && OneSemi(ents[b].name) && ents[b].name[0] != '#'
    requires (forall i :: 0 <= i < b ==> !(ents[i].name <= ents[b].name + rest)) && '&' !in ents[b].value
    ensures Expand("&" + (ents[b].name + rest), ents, rank, n, '&').text
         == ents[b].value + Expand(rest, ents, rank, n, '&').text
  {
    hide Expand, CharRefAt, Match, OneSemi;
    var name := ents[b].name;
    var p := "&" + (name + rest);
    DeclaredStart(name, rest);
    MatchFirst(p[1..], ents, b);
    DeclaredBehind(name, rest);
    NoAmpersand(ents[b].value, ents, rank, rank[b]);
    EntityStep(p, ents, rank, n, '&', b, rest);
  }

  lemma DeclaredStart(name: string, rest: string)
    requires OneSemi(name) && name[0] != '#'
    ensures var p := "&" + (name + rest); p[1..] == name + rest && name <= p[1..] && !("&#" <= p)
  {
    assert ("&" + (name + rest))[1] == name[0];
  }

  lemma DeclaredBehind(name: string, rest: string)
    requires OneSemi(name)
    ensures var p := "&" + (name + rest); ';' in p && Behind(p) == rest
  {
    var p := "&" + (name + rest);
    var i := |name|;
    assert p[i..] == ";" + rest && (";" + rest)[1..] == rest;
    assert forall k :: 0 < k < i ==> p[k] == name[k - 1];
    BehindFrom(p, i);
  }

  /** An ampersand that begins no reference stays. */
  lemma AmpersandStays(rest: string, ents: seq<Entity>, rank: seq<nat>, n: nat, t: char)
    requires |rank| == |ents| && Head(rest) != '#' && forall i :: 0 <= i < |ents| ==> !(ents[i].name <= rest)
    ensures Expand("&" + rest, ents, rank, n, t).text == "&" + Expand(rest, ents, rank, n, t).text
  {
    var p := "&" + rest;
    assert p[1..] == rest && !("&#" <= p);
    ExpandStep(p, ents, rank, n, t);
    hide Expand, CharRefAt;
  }

  lemma {:induction false} NoAmpersand(v: string, ents: seq<Entity>, rank: seq<nat>, n: nat)
    requires |rank| == |ents| && '&' !in v
    ensures Expand(v, ents, rank, n, '&').text == v
    decreases |v|
  {
    if v != "" {
      assert v[0] in v && forall c :: c in v[1..] ==> c in v;
      NoAmpersand(v[1..], ents, rank, n);
      assert v == [v[0]] + v[1..];
    }
  }

  // ----- whole texts -----

  /** A character, a line end, or a reference by number or by name. */
  datatype Piece =
    | Plain(c: char)
    | Line(end: string)
    | ByNumber(front: Front, numeral: string, ds: seq<nat>, base: nat)
    | ByName(name: string, c: char)

  function PieceText(p: Piece, rest: string): string {
    match p
    case Plain(c) => [c] + rest
    case Line(end) => end + rest
    case ByNumber(f, s, _, base) => NumberRef(f, s, base, rest)
    case ByName(name, _) => NameRef(name, rest)
  }

  function TextOf(ps: seq<Piece>): string {
    if ps == [] then "" else PieceText(ps[0], TextOf(ps[1..]))
  }

  /** `rest` is the text behind the piece; a line feed would belong to a carriage return in front of it. */
  predicate PieceOk(p: Piece, rest: string) {
    match p
    case Plain(c) => c != '&' && c != '\r' && c != '\n' && c != '\0'
    case Line(end) => end == "\n" || end == "\r\n" || (end == "\r" && Head(rest) != '\n')
    case ByNumber(f, s, ds, base) => IsNumeral(f, s, ds, base) && Value(ds, base) < 0x110000 && NulFree(s)
      && '\r' !in f.blanks
    case ByName(name, c) => IsNamed(name, c)
  }

  predicate PiecesOk(ps: seq<Piece>) {
    ps == [] || (PieceOk(ps[0], TextOf(ps[1..])) && PiecesOk(ps[1..]))
  }

  /** The text does not end in a carriage return. */
  predicate Terminated(ps: seq<Piece>) {
    ps != [] && ps[|ps| - 1].Line? ==> ps[|ps| - 1].end == "\n"
  }

  /** What a piece stands for, in content or, with `a`, in the value of an attribute. */
  function Means(p: Piece, a: bool): string {
    match p
    case Plain(c) => if a && IsSpace(c) then " " else [c]
    case Line(_) => if a then " " else "\n"
    case ByNumber(_, _, ds, base) =>
      var c := Value(ds, base);
      if 0 < c < 0x110000 then Utf8.Encode(c) else ""
    case ByName(_, c) => [c]
  }

  function MeaningOf(ps: seq<Piece>, a: bool): string {
    if ps == [] then "" else Means(ps[0], a) + MeaningOf(ps[1..], a)
  }

  // ----- line ends -----

  lemma {:induction false} NormalOver(p: string, rest: string)
    requires '\r' !in p
    ensures Normal(p + rest) == p + Normal(rest) && (EndsInReturn(p + rest) <==> EndsInReturn(rest))
    decreases |p|
  {
    if p == "" {
      assert p + rest == rest;
      assert "" + Normal(rest) == Normal(rest);
    } else {
      assert p[0] in p && forall c :: c in p[1..] ==> c in p;
      assert (p + rest)[0] == p[0] && (p + rest)[1..] == p[1..] + rest;
      NormalOver(p[1..], rest);
      assert [p[0]] + (p[1..] + Normal(rest)) == p + Normal(rest);
    }
  }

  /** Every line end becomes a line feed. */
  lemma NormalLine(end: string, rest: string)
    requires PieceOk(Line(end), rest)
    ensures Normal(end + rest) == "\n" + Normal(rest)
    ensures EndsInReturn(end + rest) <==> if rest == "" then end != "\n" else EndsInReturn(rest)
  {
    var p := end + rest;
    if end == "\r\n" {
      assert p[2..] == rest && p[1] == '\n';
    } else {
      assert p[1..] == rest && p[0] == end[0];
    }
  }

  /** A piece that is no line end is the same behind normalisation. */
  lemma NormalPiece(p: Piece, rest: string)
    requires PieceOk(p, rest) && !p.Line?
    ensures Normal(PieceText(p, rest)) == PieceText(p, Normal(rest))
    ensures EndsInReturn(PieceText(p, rest)) <==> EndsInReturn(rest)
  {
    hide Normal, EndsInReturn, Value, Utf8.Encode, Denotes;
    match p
    case Plain(c) => NormalOver([c], rest);
    case ByName(name, _) =>
      NormalOver("&" + name + ";", rest);
      NameShape(name, rest);
      NameShape(name, Normal(rest));
    case ByNumber(f, s, ds, base) =>
      var q := (if base == 16 then "&#x" else "&#") + (FrontText(f) + (s + ";"));
      NumberClean(f, s, ds, base);
      NormalOver(q, rest);
      NumberShape(f, s, base, rest);
      NumberShape(f, s, base, Normal(rest));
  }

  lemma NameShape(name: string, rest: string)
    ensures NameRef(name, rest) == "&" + name + ";" + rest
  {
    Seqs.Assoc("&" + name, ";", rest);
    Seqs.Assoc("&", name, ";" + rest);
  }

  lemma NumberShape(f: Front, s: string, base: nat, rest: string)
    ensures NumberRef(f, s, base, rest) == (if base == 16 then "&#x" else "&#") + (FrontText(f) + (s + ";")) + rest
  {
    var a, b := if base == 16 then "&#x" else "&#", FrontText(f);
    Seqs.Assoc(a, b + (s + ";"), rest);
    Seqs.Assoc(b, s + ";", rest);
    Seqs.Assoc(s, ";", rest);
    hide FrontText;
  }

  lemma NumberClean(f: Front, s: string, ds: seq<nat>, base: nat)
    requires IsNumeral(f, s, ds, base) && '\r' !in f.blanks
    ensures '\r' !in (if base == 16 then "&#x" else "&#") + (FrontText(f) + (s + ";"))
  {
    forall i | 0 <= i < |s|
      ensures s[i] != '\r'
    {
      DigitIs(s[i], ds[i], base);
    }
    hide Denotes, Value;
  }

  // ----- decoding -----

  /** The pieces with every line end a line feed. */
  function Lines(ps: seq<Piece>): seq<Piece> {
    if ps == [] then [] else [if ps[0].Line? then Line("\n") else ps[0]] + Lines(ps[1..])
  }

  lemma {:induction false} NormalIs(ps: seq<Piece>)
    requires PiecesOk(ps)
    ensures Normal(TextOf(ps)) == TextOf(Lines(ps)) && (EndsInReturn(TextOf(ps)) <==> !Terminated(ps))
    decreases |ps|
  {
    hide PieceOk, Normal, EndsInReturn;
    if ps == [] {
      NothingNormal();
    } else {
      var rest := TextOf(ps[1..]);
      NormalIs(ps[1..]);
      assert Lines(ps)[1..] == Lines(ps[1..]);
      PieceShows(ps[0], rest);
      if ps[0].Line? {
        NormalLine(ps[0].end, rest);
      } else {
        NormalPiece(ps[0], rest);
      }
      if ps[1..] == [] {
        NothingNormal();
      } else {
        PieceShows(ps[1], TextOf(ps[1..][1..]));
        assert ps[1..][|ps[1..]| - 1] == ps[|ps| - 1];
      }
    }
  }

  lemma NothingNormal()
    ensures Normal("") == "" && !EndsInReturn("")
  {
  }

  lemma PieceShows(p: Piece, rest: string)
    requires PieceOk(p, rest)
    ensures PieceText(p, rest) != "" && (p.Line? ==> p.end == "\n" || p.end == "\r" || p.end == "\r\n")
  {
  }

  /** One piece is replaced by what it stands for. */
  lemma PieceReplaced(p: Piece, x: string, rest: string, a: bool, ents: seq<Entity>, rank: seq<nat>, n: nat)
    requires PieceOk(p, x) && (p.Line? ==> p.end == "\n") && Bounded(ents, rank, n)
    ensures |rank| == |ents|
    ensures Expand(PieceText(p, rest), ents, rank, n, Mode(a)).text
         == Means(p, a) + Expand(rest, ents, rank, n, Mode(a)).text
  {
    hide Expand, Bounded, IsNamed, Utf8.Encode, Value, NumberRef, NameRef;
    BoundedRank(ents, rank, n);
    match p
    case Plain(c) => CharReplaced(c, rest, a, ents, rank, n);
    case Line(end) => CharReplaced('\n', rest, a, ents, rank, n);
    case ByNumber(f, s, ds, base) =>
      Positive(f, s, ds, base);
      NumberReplaced(f, s, ds, base, rest, ents, rank, n, Mode(a));
    case ByName(name, c) => NameReplaced(name, c, rest, ents, rank, n, Mode(a));
  }

  lemma Positive(f: Front, s: string, ds: seq<nat>, base: nat)
    requires IsNumeral(f, s, ds, base)
    ensures Value(ds, base) > 0
  {
  }

  lemma CharReplaced(c: char, rest: string, a: bool, ents: seq<Entity>, rank: seq<nat>, n: nat)
    requires |rank| == |ents| && c != '&'
    ensures Expand([c] + rest, ents, rank, n, Mode(a)).text
         == [if a && IsSpace(c) then ' ' else c] + Expand(rest, ents, rank, n, Mode(a)).text
  {
    var p := [c] + rest;
    assert p[0] == c && p[1..] == rest;
    ExpandStep(p, ents, rank, n, Mode(a));
    hide Expand;
  }

  lemma {:induction false} LinesReplaced(ps: seq<Piece>, a: bool, ents: seq<Entity>, rank: seq<nat>, n: nat)
    requires PiecesOk(ps) && Bounded(ents, rank, n)
    ensures |rank| == |ents| && Expand(TextOf(Lines(ps)), ents, rank, n, Mode(a)).text == MeaningOf(ps, a)
    decreases |ps|
  {
    hide Expand, Bounded, PieceText, Means, Mode;
    BoundedRank(ents, rank, n);
    if ps == [] {
      NothingReplaced(ents, rank, n, Mode(a));
    } else {
      var p := if ps[0].Line? then Line("\n") else ps[0];
      assert Lines(ps)[1..] == Lines(ps[1..]);
      LinesReplaced(ps[1..], a, ents, rank, n);
      PieceReplaced(p, if ps[0].Line? then "" else TextOf(ps[1..]), TextOf(Lines(ps[1..])), a, ents, rank, n);
      SameLine(ps[0], a);
    }
  }

  lemma SameLine(p: Piece, a: bool)
    ensures p.Line? ==> Means(Line("\n"), a) == Means(p, a)
  {
  }

  lemma NothingReplaced(ents: seq<Entity>, rank: seq<nat>, n: nat, t: char)
    requires |rank| == |ents|
    ensures Expand("", ents, rank, n, t).text == ""
  {
  }

  /** The decoder makes of any text what its pieces stand for. */
  lemma DecodedIs(ps: seq<Piece>, a: bool, x: Context)
    requires PiecesOk(ps) && Ready(x) && DEFAULTS <= x.ents && x.t == Mode(a)
    ensures Expanded(Normal(TextOf(ps)), x).text == MeaningOf(ps, a) && (EndsInReturn(TextOf(ps)) <==> !Terminated(ps))
  {
    NormalIs(ps);
    LinesReplaced(ps, a, x.ents, x.rank, x.n);
    hide Normal, Expand, TextOf, MeaningOf, PiecesOk;
  }

  /** In character data nothing is replaced. */
  lemma {:induction false} DataKept(p: string, ents: seq<Entity>, rank: seq<nat>, n: nat)
    requires |rank| == |ents|
    ensures Expand(p, ents, rank, n, 'c').text == p
    decreases |p|
  {
    if p != "" {
      DataKept(p[1..], ents, rank, n);
      assert p == [p[0]] + p[1..];
    }
  }
}
