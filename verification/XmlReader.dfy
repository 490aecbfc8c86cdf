/** The scanning loops of `ezxml_parse_str`, and its loop over the attributes of a tag. */
module XmlReader {
  import opened XmlAttr
  import opened CText
  import opened XmlEncode
  import opened XmlText
  import opened XmlTree

  // ----- scanning -----

  lemma Next(t: string, i: nat)
    requires i < |t|
    ensures t[i..] != "" && t[i..][0] == t[i] && t[i..][1..] == t[i + 1..]
  {
  }

  /** `s += strcspn(s, stops)` */
  method CSpan(t: string, i: nat, stop: char -> bool) returns (j: nat)
    requires i <= |t|
    ensures i <= j <= |t| && j == i + Span(t[i..], stop) && t[j..] == Past(t[i..], stop)
    ensures t[i..j] == t[i..][..j - i] && (j < |t| ==> stop(t[j]))
  {
    j := i;
    while j < |t| && !stop(t[j])
      invariant i <= j <= |t| && Span(t[i..], stop) == j - i + Span(t[j..], stop)
    {
      Next(t, j);
      j := j + 1;
    }
    if j < |t| {
      Next(t, j);
    }
    assert t[i..][j - i..] == t[j..];
  }

  /** `while (*s && *s != c) s++;` */
  method ScanTo(t: string, i: nat, c: char) returns (j: nat)
    requires i <= |t|
    ensures i <= j <= |t| && j == i + SpanTo(t[i..], c)
    ensures t[i..j] == t[i..][..j - i] && t[j..] == t[i..][j - i..] && (j < |t| ==> t[j] == c)
  {
    j := i;
    while j < |t| && t[j] != c
      invariant i <= j <= |t| && SpanTo(t[i..], c) == j - i + SpanTo(t[j..], c)
    {
      Next(t, j);
      j := j + 1;
    }
    if j < |t| {
      Next(t, j);
    }
  }

  lemma FindStep(p: string, w: string)
    ensures Find(p, w) == if w <= p then At(0) else if p == "" then Nowhere
                          else match Find(p[1..], w) { case At(n) => At(n + 1) case Nowhere => Nowhere }
  {
  }

  /** `strstr` */
  method ScanFor(t: string, i: nat, w: string) returns (found: bool, j: nat)
    requires i <= |t|
    ensures found ==> i <= j <= |t| && Find(t[i..], w) == At(j - i)
    ensures !found ==> Find(t[i..], w) == Nowhere
  {
    hide *;
    j := i;
    while !(w <= t[j..]) && j < |t|
      invariant i <= j <= |t|
      invariant Find(t[i..], w) == match Find(t[j..], w) { case At(n) => At(j - i + n) case Nowhere => Nowhere }
    {
      FindStep(t[j..], w);
      Next(t, j);
      j := j + 1;
    }
    FindStep(t[j..], w);
    found := w <= t[j..];
  }

  // ----- attributes -----

  /** The attributes read so far in front of those still to come. */
  function Behind(acc: seq<Attr>, r: AttrsRead): AttrsRead {
    if r.Attrs? then Attrs(acc + r.attrs, r.rest) else r
  }

  lemma BehindMore(acc: seq<Attr>, a: Attr, r: AttrsRead)
    ensures Behind(acc, More(a, r)) == Behind(acc + [a], r)
  {
    if r.Attrs? {
      assert acc + ([a] + r.attrs) == acc + [a] + r.attrs;
    }
  }

  /** A value from behind its opening quote. */
  method QuotedAt(t: string, i: nat, quote: char) returns (v: ValueRead, j: nat)
    requires i <= |t|
    ensures v == ReadQuoted(t[i..], quote) && (v.Value? ==> i < j <= |t| && v.rest == t[j..])
  {
    var e := ScanTo(t, i, quote);
    j := e;
    if e == |t| {
      return BadValue, j;
    }
    var text := t[i..e];
    if EndsInReturn(text) {
      return OddValue, j;
    }
    assert t[i..][e - i + 1..] == t[e + 1..];
    v, j := Value(Decoded(text, ' '), t[e + 1..]), e + 1;
  }

  /** The value of an attribute whose name ends at `i`. */
  method ValueAt(t: string, i: nat) returns (v: ValueRead, j: nat)
    requires i < |t|
    ensures v == ReadValue(t[i..]) && (v.Value? ==> i < j <= |t| && v.rest == t[j..])
  {
    hide ReadQuoted, Span;
    Next(t, i);
    j := CSpan(t, i + 1, NoWsOrEquals);
    assert t[j..] == Past(t[i..][1..], NoWsOrEquals);
    if j < |t| && (t[j] == '\"' || t[j] == '\'') {
      Next(t, j);
      v, j := QuotedAt(t, j + 1, t[j]);
    } else {
      if j < |t| { Next(t, j); }
      v := Value("", t[j..]);
    }
  }

  /** One attribute. */
  method AttrAt(t: string, i: nat) returns (ok: bool, odd: bool, a: Attr, j: nat)
    requires i < |t| && !EndsTag(t[i])
    ensures ok ==> i < j <= |t| && ReadAttrs(t[i..]) == More(a, ReadAttrs(t[j..]))
    ensures !ok ==> ReadAttrs(t[i..]) == if odd then OddAttrs else BadAttrs
  {
    Next(t, i);
    ok, odd := true, false;
    j := CSpan(t, i, EndsAttrName);
    var name := t[i..j];
    if j == |t| || (t[j] != '=' && !IsSpace(t[j])) {
      if j < |t| { Next(t, j); }
      a := Attr(name, "");
      ghost var q := t[j..];
      j := CSpan(t, j, NoSpace);
    } else {
      Next(t, j);
      var v; var k;
      v, k := ValueAt(t, j);
      match v {
        case Value(w, rest) =>
          a := Attr(name, w);
          j := CSpan(t, k, NoSpace);
        case BadValue =>
          ok, a := false, Attr(name, "");
        case OddValue =>
          ok, odd, a := false, true, Attr(name, "");
      }
    }
  }

  /** The attribute loop. */
  method AttrsAt(t: string, i: nat) returns (r: AttrsRead, j: nat)
    requires i <= |t|
    ensures r == ReadAttrs(t[i..]) && (r.Attrs? ==> i <= j <= |t| && r.rest == t[j..])
  {
    j := i;
    var acc: seq<Attr> := [];
    while j < |t| && !EndsTag(t[j])
      invariant i <= j <= |t| && ReadAttrs(t[i..]) == Behind(acc, ReadAttrs(t[j..]))
      decreases |t| - j
    {
      var ok, odd, a, k := AttrAt(t, j);
      if !ok {
        return if odd then OddAttrs else BadAttrs, k;
      }
      BehindMore(acc, a, ReadAttrs(t[k..]));
      acc, j := acc + [a], k;
    }
    if j < |t| {
      Next(t, j);
    }
    r := Attrs(acc, t[j..]);
    assert acc + [] == acc;
  }

  /** `p` is some text, a '<' and `q`, or has no '<'. */
  lemma TextCases(p: string, e: char, st: Stack, q: string)
    requires SpanTo(p, '<') < |p| ==> q == p[SpanTo(p, '<') + 1..]
    ensures var n := SpanTo(p, '<');
      ParseText(p, e, st) == if n == |p| then Finish(st)
        else if n > 0 && st.On? then
          (if EndsInReturn(p[..n]) then Unmodelled else ParseFrom(q, e, CharContent(st, Decoded(p[..n], '&'))))
        else ParseFrom(q, e, st)
  {
    hide ParseFrom, CharContent, Decoded, EndsInReturn;
  }
}
