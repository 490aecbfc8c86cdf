/**
 References in ezXML text: what they stand for, and that replacing them one by
 one in place, as the decoder does, gives the same as replacing recursively.
 */
module XmlDecode {
  import opened CText
  import opened XmlEntities
  import Utf8Bits

  const LONG_MAX: nat := 0x7FFF_FFFF

  // ----- character references -----

  predicate IsDigitIn(c: char, base: nat) {
    IsDigit(c) || (base == 16 && ('a' <= c <= 'f' || 'A' <= c <= 'F'))
  }

  function DigitIn(c: char, base: nat): (d: nat)
    requires IsDigitIn(c, base)
    ensures d < 16 && (base == 10 ==> d < 10)
  {
    if IsDigit(c) then DigitOf(c)
    else if 'a' <= c <= 'f' then c as int - 'a' as int + 10
    else c as int - 'A' as int + 10
  }

  function Capped(v: nat): nat {
    if v < LONG_MAX then v else LONG_MAX
  }

  datatype Numeral = Numeral(value: nat, rest: string)

  /** The digits of `strtol`; it stops at the largest `long`. */
  function Strtol(acc: nat, p: string, base: nat): (r: Numeral)
    ensures |r.rest| <= |p| && (acc <= LONG_MAX ==> r.value <= LONG_MAX)
    decreases |p|
  {
    if p == "" || !IsDigitIn(p[0], base) then Numeral(acc, p)
    else Strtol(Capped(acc * base + DigitIn(p[0], base)), p[1..], base)
  }

  /** Digits end at a character that is none. */
  lemma {:induction false} StrtolCat(acc: nat, p: string, base: nat, q: string)
    requires ';' in p
    ensures var r := Strtol(acc, p, base);
      r.rest != "" && Strtol(acc, p + q, base) == Numeral(r.value, r.rest + q)
    decreases |p|
  {
    if IsDigitIn(p[0], base) {
      assert (p + q)[1..] == p[1..] + q;
      assert ';' in p[1..];
      StrtolCat(Capped(acc * base + DigitIn(p[0], base)), p[1..], base, q);
    }
  }

  /** How many characters `strtol` passes over as white space. */
  function Blanks(p: string): (n: nat)
    ensures n <= |p| && (forall i :: 0 <= i < n ==> IsSpace(p[i])) && (n < |p| ==> !IsSpace(p[n]))
  {
    if p == "" || !IsSpace(p[0]) then 0 else 1 + Blanks(p[1..])
  }

  predicate HexPrefix(p: string, s: nat) {
    s + 2 < |p| && p[s] == '0' && (p[s + 1] == 'x' || p[s + 1] == 'X') && IsDigitIn(p[s + 2], 16)
  }

  /** And as white space, a plus sign and, in base 16, `0x` in front of a digit. */
  function Lead(p: string, base: nat): (n: nat)
    ensures n <= |p| && forall i :: 0 <= i < n ==> p[i] != ';'
  {
    var b := Blanks(p);
    var s := if b < |p| && p[b] == '+' then b + 1 else b;
    if base == 16 && HexPrefix(p, s) then s + 2 else s
  }

  /** `strtol`; a number with a minus sign is taken for none. */
  function Number(p: string, base: nat): (r: Numeral)
    ensures |r.rest| <= |p| && r.value <= LONG_MAX
  {
    Strtol(0, p[Lead(p, base)..], base)
  }

  lemma {:induction false} BlanksCat(p: string, q: string)
    requires ';' in p
    ensures Blanks(p) < |p| && Blanks(p + q) == Blanks(p)
  {
    assert (p + q)[0] == p[0];
    if IsSpace(p[0]) {
      assert (p + q)[1..] == p[1..] + q;
      assert ';' in p[1..];
      BlanksCat(p[1..], q);
    }
  }

  lemma LeadCat(p: string, q: string, base: nat)
    requires ';' in p
    ensures Lead(p + q, base) == Lead(p, base) && ';' in p[Lead(p, base)..]
  {
    BlanksCat(p, q);
    var b := Blanks(p);
    var s := if p[b] == '+' then b + 1 else b;
    var i :| 0 <= i < |p| && p[i] == ';';
    assert i >= s;
    if s + 2 >= |p| {
      assert i == s || i == s + 1;
    }
    assert HexPrefix(p + q, s) == HexPrefix(p, s);
    assert p[Lead(p, base)..][i - Lead(p, base)] == ';';
  }

  lemma NumberCat(p: string, base: nat, q: string)
    requires ';' in p
    ensures var r := Number(p, base); r.rest != "" && Number(p + q, base) == Numeral(r.value, r.rest + q)
  {
    LeadCat(p, q, base);
    var n := Lead(p, base);
    assert (p + q)[n..] == p[n..] + q;
    StrtolCat(0, p[n..], base, q);
  }

  lemma NumberSemi(p: string, base: nat)
    requires Head(Number(p, base).rest) == ';'
    ensures ';' in p && Behind(p) == Number(p, base).rest[1..]
  {
    var n := Lead(p, base);
    StrtolSemi(0, p[n..], base);
    BehindFrom(p, n);
  }

  lemma {:induction false} BehindFrom(p: string, i: nat)
    requires i <= |p| && (forall k :: 0 <= k < i ==> p[k] != ';') && ';' in p[i..]
    ensures ';' in p && Behind(p) == Behind(p[i..])
  {
    if i > 0 {
      assert p[1..][i - 1..] == p[i..];
      BehindFrom(p[1..], i - 1);
    }
  }

  /** `strchr(p, ';') + 1` */
  function Behind(p: string): (r: string)
    requires ';' in p
    ensures |r| < |p|
  {
    if p[0] == ';' then p[1..] else Behind(p[1..])
  }

  lemma {:induction false} BehindCat(p: string, q: string)
    requires ';' in p
    ensures ';' in p + q && Behind(p + q) == Behind(p) + q
  {
    if p[0] == ';' {
      assert (p + q)[1..] == p[1..] + q;
    } else {
      assert (p + q)[1..] == p[1..] + q;
      assert ';' in p[1..];
      BehindCat(p[1..], q);
    }
  }

  // ----- references -----

  /** What stands at an ampersand: a character, the entity at `b`, or neither. */
  datatype Ref = CharRef(c: nat) | EntRef(b: nat) | NoRef

  function CharRefAt(p: string): Ref
    requires "&#" <= p
  {
    var n := if Head(p[2..]) == 'x' then Number(p[3..], 16) else Number(p[2..], 10);
    if n.value == 0 || Head(n.rest) != ';' then NoRef else CharRef(n.value)
  }

  function RefAt(p: string, ents: seq<Entity>): Ref
    requires p != "" && p[0] == '&'
  {
    if "&#" <= p then CharRefAt(p)
    else if Match(p[1..], ents) < |ents| then EntRef(Match(p[1..], ents))
    else NoRef
  }

  /** Entity names end in their only semicolon, and values have no terminator inside. */
  ghost predicate Named(ents: seq<Entity>) {
    forall i :: 0 <= i < |ents| ==> OneSemi(ents[i].name)
  }

  predicate OneSemi(n: string) {
    n != "" && n[|n| - 1] == ';' && forall i :: 0 <= i < |n| - 1 ==> n[i] != ';'
  }

  /** Every ampersand in `v` starts something that ends within `v`. */
  predicate Complete(v: string) {
    forall k :: 0 <= k < |v| && v[k] == '&' ==> ';' in v[k + 1..]
  }

  lemma {:induction false} StrtolSemi(acc: nat, p: string, base: nat)
    requires Head(Strtol(acc, p, base).rest) == ';'
    ensures ';' in p && Behind(p) == Strtol(acc, p, base).rest[1..]
    decreases |p|
  {
    if p != "" && IsDigitIn(p[0], base) {
      StrtolSemi(Capped(acc * base + DigitIn(p[0], base)), p[1..], base);
    }
  }

  /** A reference ends at a semicolon. */
  lemma RefHasSemi(p: string, ents: seq<Entity>)
    requires p != "" && p[0] == '&' && Named(ents) && !RefAt(p, ents).NoRef?
    ensures ';' in p
  {
    if "&#" <= p {
      if Head(p[2..]) == 'x' {
        NumberSemi(p[3..], 16);
        assert p[3..] == p[2..][1..];
      } else {
        NumberSemi(p[2..], 10);
      }
    } else {
      var name := ents[Match(p[1..], ents)].name;
      assert p[1..][|name| - 1] == name[|name| - 1];
    }
  }

  // ----- recursive replacement -----

  datatype Expansion = Expansion(text: string, steps: nat)

  function Then(v: Expansion, w: Expansion): Expansion {
    Expansion(v.text + w.text, v.steps + w.steps)
  }

  /** A character of the text itself. */
  function Plain(c: char, t: char): Expansion {
    Expansion([if t == ' ' && IsSpace(c) then ' ' else c], 1)
  }

  function Code(c: nat): Expansion {
    Expansion(Utf8Bits.BitEncode(c), 1)
  }

  /**
   The text `p` with every character reference replaced by its character and every reference to an entity of rank
   below `n` by the replacement of its value; in mode ' ' white space becomes a space, in mode 'c' nothing changes.
   `steps` counts the turns this takes.
   */
  function Expand(p: string, ents: seq<Entity>, rank: seq<nat>, n: nat, t: char): Expansion
    requires |rank| == |ents|
    decreases n, |p|
  {
    if p == "" then Expansion("", 0)
    else if p[0] != '&' || t == 'c' || RefAt(p, ents).NoRef? || ';' !in p then
      Then(Plain(p[0], t), Expand(p[1..], ents, rank, n, t))
    else match RefAt(p, ents) {
      case CharRef(c) => Then(Code(c), Expand(Behind(p), ents, rank, n, t))
      case EntRef(b) =>
        var v := if rank[b] < n then Expand(ents[b].value, ents, rank, rank[b], t) else Expansion("", 0);
        Then(Then(Expansion("", 1), v), Expand(Behind(p), ents, rank, n, t))
    }
  }

  // ----- the same, one reference after the other -----

  /** Two texts that start the same up to a semicolon match the same names. */
  lemma {:induction false} MatchCat(p: string, q: string, ents: seq<Entity>)
    requires Named(ents) && ';' in p
    ensures Match(p + q, ents) == Match(p, ents)
  {
    if ents != [] {
      PrefixCat(ents[0].name, p, q);
      assert Named(ents[1..]);
      MatchCat(p, q, ents[1..]);
    }
  }

  lemma PrefixCat(n: string, p: string, q: string)
    requires OneSemi(n) && ';' in p
    ensures n <= p + q <==> n <= p
  {
    var i :| 0 <= i < |p| && p[i] == ';';
    assert (p + q)[i] == ';';
    if n <= p + q {
      assert n == (p + q)[..|n|];
      assert i < |n| ==> n[i] == ';';
      assert n == p[..|n|];
    }
  }

  lemma CharRefCat(p: string, q: string)
    requires "&#" <= p && ';' in p[1..]
    ensures CharRefAt(p + q) == CharRefAt(p)
  {
    assert p[1] == '#' && ';' in p[2..] by { SemiStep(p, 1); }
    assert (p + q)[2..] == p[2..] + q;
    if p[2] == 'x' {
      SemiStep(p, 2);
      assert (p + q)[3..] == p[3..] + q;
      NumberCat(p[3..], 16, q);
    } else {
      NumberCat(p[2..], 10, q);
    }
  }

  lemma SemiStep(p: string, i: nat)
    requires i < |p| && p[i] != ';' && ';' in p[i..]
    ensures i + 1 < |p| && ';' in p[i + 1..]
  {
    var j :| 0 <= j < |p[i..]| && p[i..][j] == ';';
    assert p[i + 1..][j - 1] == ';';
  }

  lemma RefCat(p: string, q: string, ents: seq<Entity>)
    requires p != "" && p[0] == '&' && Named(ents) && ';' in p[1..]
    ensures RefAt(p + q, ents) == RefAt(p, ents)
  {
    assert (p + q)[1..] == p[1..] + q;
    assert "&#" <= p <==> "&#" <= p + q by {
      assert |p| > 1 && (p + q)[1] == p[1];
      assert forall s: string :: |s| > 1 && s[0] == '&' && s[1] == '#' ==> "&#" <= s;
    }
    if "&#" <= p {
      CharRefCat(p, q);
    } else {
      MatchCat(p[1..], q, ents);
    }
  }

  lemma CompleteTail(v: string)
    requires Complete(v) && v != ""
    ensures Complete(v[1..])
  {
    forall k | 0 <= k < |v[1..]| && v[1..][k] == '&'
      ensures ';' in v[1..][k + 1..]
    {
      assert v[k + 1] == '&' && v[1..][k + 1..] == v[k + 1 + 1..];
    }
  }

  lemma {:induction false} CompleteBehind(v: string)
    requires Complete(v) && ';' in v
    ensures Complete(Behind(v))
  {
    CompleteTail(v);
    if v[0] != ';' {
      CompleteBehind(v[1..]);
    }
  }

  lemma ThenAssoc(u: Expansion, v: Expansion, w: Expansion)
    ensures Then(Then(u, v), w) == Then(u, Then(v, w))
  {
    assert u.text + v.text + w.text == u.text + (v.text + w.text);
  }

  /** One turn of the replacement: what the first character or reference gives, and where it ends. */
  function First(p: string, ents: seq<Entity>, rank: seq<nat>, n: nat, t: char): Expansion
    requires |rank| == |ents| && p != ""
  {
    if p[0] != '&' || t == 'c' || RefAt(p, ents).NoRef? || ';' !in p then Plain(p[0], t)
    else match RefAt(p, ents) {
      case CharRef(c) => Code(c)
      case EntRef(b) =>
        Then(Expansion("", 1), if rank[b] < n then Expand(ents[b].value, ents, rank, rank[b], t) else Expansion("", 0))
    }
  }

  function After(p: string, ents: seq<Entity>, t: char): (r: string)
    requires p != ""
    ensures |r| < |p|
  {
    if p[0] != '&' || t == 'c' || RefAt(p, ents).NoRef? || ';' !in p then p[1..] else Behind(p)
  }

  lemma ExpandStep(p: string, ents: seq<Entity>, rank: seq<nat>, n: nat, t: char)
    requires |rank| == |ents| && p != ""
    ensures Expand(p, ents, rank, n, t) == Then(First(p, ents, rank, n, t), Expand(After(p, ents, t), ents, rank, n, t))
  {
  }

  /** The first turn on a complete text does not depend on what follows. */
  lemma FirstCat(a: string, b: string, ents: seq<Entity>, rank: seq<nat>, n: nat, t: char)
    requires |rank| == |ents| && Named(ents) && a != "" && Complete(a)
    ensures First(a + b, ents, rank, n, t) == First(a, ents, rank, n, t)
    ensures After(a + b, ents, t) == After(a, ents, t) + b && Complete(After(a, ents, t))
  {
    assert (a + b)[0] == a[0] && (a + b)[1..] == a[1..] + b;
    CompleteTail(a);
    if a[0] == '&' {
      assert ';' in a[1..];
      RefCat(a, b, ents);
      SemiIn(a);
      BehindCat(a, b);
      CompleteBehind(a);
    }
  }

  lemma SemiIn(a: string)
    requires a != "" && ';' in a[1..]
    ensures ';' in a
  {
  }

  /** A complete text in front is replaced by itself. */
  lemma {:induction false} ExpandCat(a: string, b: string, ents: seq<Entity>, rank: seq<nat>, n: nat, t: char)
    requires |rank| == |ents| && Named(ents) && Complete(a)
    ensures Expand(a + b, ents, rank, n, t) == Then(Expand(a, ents, rank, n, t), Expand(b, ents, rank, n, t))
    decreases |a|
  {
    if a == "" {
      assert a + b == b;
    } else {
      FirstCat(a, b, ents, rank, n, t);
      ExpandStep(a + b, ents, rank, n, t);
      ExpandStep(a, ents, rank, n, t);
      var rest := After(a, ents, t);
      ExpandCat(rest, b, ents, rank, n, t);
      ThenAssoc(First(a, ents, rank, n, t), Expand(rest, ents, rank, n, t), Expand(b, ents, rank, n, t));
    }
  }

  // ----- the bound -----

  /** All entities that `s` refers to have a rank below `n`. */
  ghost predicate RefsBelow(s: string, ents: seq<Entity>, rank: seq<nat>, n: nat)
    requires |rank| == |ents|
  {
    forall k, b :: Resolves(s, k, ents, b) ==> rank[b] < n
  }

  lemma RefsBelowTail(s: string, j: nat, ents: seq<Entity>, rank: seq<nat>, n: nat)
    requires |rank| == |ents| && RefsBelow(s, ents, rank, n) && j <= |s|
    ensures RefsBelow(s[j..], ents, rank, n)
  {
    forall k, b | Resolves(s[j..], k, ents, b)
      ensures rank[b] < n
    {
      assert s[j..][k + 1..] == s[j + k + 1..];
      assert Resolves(s, j + k, ents, b);
    }
  }

  lemma {:induction false} BehindIs(p: string) returns (j: nat)
    requires ';' in p
    ensures j <= |p| && Behind(p) == p[j..]
  {
    if p[0] == ';' {
      j := 1;
    } else {
      j := BehindIs(p[1..]);
      assert p[1..][j..] == p[j + 1..];
      j := j + 1;
    }
  }

  lemma AfterBelow(p: string, ents: seq<Entity>, rank: seq<nat>, n: nat, t: char)
    requires |rank| == |ents| && p != "" && RefsBelow(p, ents, rank, n)
    ensures RefsBelow(After(p, ents, t), ents, rank, n)
  {
    if ';' in p {
      var j := BehindIs(p);
      RefsBelowTail(p, j, ents, rank, n);
    }
    RefsBelowTail(p, 1, ents, rank, n);
  }

  /** Any bound that is high enough gives the same. */
  lemma {:induction false} ExpandStable(p: string, ents: seq<Entity>, rank: seq<nat>, m: nat, n: nat, t: char)
    requires |rank| == |ents| && RefsBelow(p, ents, rank, m) && m <= n
    ensures Expand(p, ents, rank, m, t) == Expand(p, ents, rank, n, t)
    decreases |p|
  {
    if p != "" {
      AfterBelow(p, ents, rank, m, t);
      ExpandStable(After(p, ents, t), ents, rank, m, n, t);
      ExpandStep(p, ents, rank, m, t);
      ExpandStep(p, ents, rank, n, t);
      assert First(p, ents, rank, m, t) == First(p, ents, rank, n, t) by {
        if p[0] == '&' && RefAt(p, ents).EntRef? {
          assert Resolves(p, 0, ents, RefAt(p, ents).b);
        }
      }
    }
  }

  // ----- an entity replaced in place -----

  /** What the parser keeps of its entities: they are ranked, and their values are literals and complete references. */
  ghost predicate Usable(ents: seq<Entity>, rank: seq<nat>) {
    && Ranked(ents, rank) && Named(ents)
    && forall i :: 0 <= i < |ents| ==> Complete(ents[i].value)
  }

  ghost predicate AtEntity(p: string, ents: seq<Entity>, b: nat, t: char) {
    p != "" && p[0] == '&' && t != 'c' && RefAt(p, ents) == EntRef(b) && ';' in p && b < |ents|
  }

  lemma ValueBelow(v: string, rest: string, ents: seq<Entity>, rank: seq<nat>, n: nat)
    requires |rank| == |ents| && Named(ents) && Complete(v)
    requires RefsBelow(v, ents, rank, n) && RefsBelow(rest, ents, rank, n)
    ensures RefsBelow(v + rest, ents, rank, n)
  {
    forall k, b | Resolves(v + rest, k, ents, b)
      ensures rank[b] < n
    {
      if k < |v| {
        assert (v + rest)[k + 1..] == v[k + 1..] + rest;
        assert v[k] == '&';
        MatchCat(v[k + 1..], rest, ents);
        assert Resolves(v, k, ents, b);
      } else {
        assert (v + rest)[k + 1..] == rest[k - |v| + 1..];
        assert Resolves(rest, k - |v|, ents, b);
      }
    }
  }

  /**
   Putting the value of an entity in place of its reference, and going on from its first character, leaves the
   expansion as it is, with one turn less to go.
   */
  lemma Rescan(p: string, ents: seq<Entity>, rank: seq<nat>, n: nat, b: nat, t: char)
    requires Usable(ents, rank) && RefsBelow(p, ents, rank, n) && AtEntity(p, ents, b, t)
    ensures var q := ents[b].value + Behind(p);
      && RefsBelow(q, ents, rank, n)
      && Expand(p, ents, rank, n, t) == Then(Expansion("", 1), Expand(q, ents, rank, n, t))
  {
    var v, rest := ents[b].value, Behind(p);
    assert Resolves(p, 0, ents, b);
    assert RefsBelow(v, ents, rank, rank[b]);
    AfterBelow(p, ents, rank, n, t);
    ValueBelow(v, rest, ents, rank, n);
    ExpandStable(v, ents, rank, rank[b], n, t);
    ExpandCat(v, rest, ents, rank, n, t);
    ExpandStep(p, ents, rank, n, t);
    ThenAssoc(Expansion("", 1), Expand(v, ents, rank, n, t), Expand(rest, ents, rank, n, t));
  }
}
