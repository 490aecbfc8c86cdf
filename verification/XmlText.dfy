/**
 `ezxml_decode` on its buffer: line ends, character references and entities
 replaced in place, the buffer copied and grown when a value does not fit.
 */
module XmlText {
  import Seqs
  import opened CText
  import opened XmlEntities
  import opened XmlDecode
  import Utf8Bits

  /** `b` holds the text `p` at `i`, terminated. */
  ghost predicate Text(b: seq<char>, i: nat, p: string) {
    i + |p| < |b| && b[i..i + |p|] == p && b[i + |p|] == '\0' && NulFree(p)
  }

  lemma TextAt(b: seq<char>, i: nat, p: string)
    requires Text(b, i, p)
    ensures i < |b| && b[i] == Head(p) && (p != "" ==> b[i] == p[0] && Text(b, i + 1, p[1..]))
  {
    if p != "" {
      assert b[i] == b[i..i + |p|][0];
      assert b[i + 1..i + 1 + |p[1..]|] == p[1..];
    }
  }

  lemma InRange(b: seq<char>, i: nat, p: string)
    requires Text(b, i, p)
    ensures i + |p| < |b|
  {
  }

  lemma NonEmpty(b: seq<char>, i: nat, p: string)
    requires Text(b, i, p)
    ensures i < |b| && (b[i] == '\0' <==> p == "")
  {
    TextAt(b, i, p);
  }

  lemma TextDrop(b: seq<char>, i: nat, p: string, k: nat)
    requires Text(b, i, p) && k <= |p|
    ensures Text(b, i + k, p[k..])
  {
    assert b[i + k..i + |p|] == p[k..];
  }

  /** `b` holds the characters `w` at `i`. */
  ghost predicate Holds(b: seq<char>, i: nat, w: string) {
    i + |w| <= |b| && b[i..i + |w|] == w
  }

  /** What is before `from`, and what is from `to` on, is as in `c`. */
  ghost predicate Outside(b: seq<char>, c: seq<char>, from: nat, to: nat) {
    |b| == |c| && from <= to <= |b| && b[..from] == c[..from] && b[to..] == c[to..]
  }

  lemma OutsideThen(b: seq<char>, c: seq<char>, d: seq<char>, i: nat, j: nat, from: nat, to: nat)
    requires Outside(b, c, i, j) && Outside(c, d, from, to) && from <= i && j <= to
    ensures Outside(b, d, from, to)
  {
    assert b[..from] == b[..i][..from] && c[..from] == c[..i][..from];
    assert b[to..] == b[j..][to - j..] && c[to..] == c[j..][to - j..];
  }

  lemma Widen(b: seq<char>, c: seq<char>, i: nat, j: nat, from: nat, to: nat)
    requires Outside(b, c, i, j) && from <= i && j <= to <= |b|
    ensures Outside(b, c, from, to)
  {
    OutsideThen(b, c, c, i, j, from, to);
  }

  lemma HoldsKept(b: seq<char>, c: seq<char>, i: nat, w: string, from: nat, to: nat)
    requires Holds(b, i, w) && Outside(c, b, from, to) && i + |w| <= from
    ensures Holds(c, i, w)
  {
    assert c[i..i + |w|] == c[..from][i..i + |w|];
    assert b[i..i + |w|] == b[..from][i..i + |w|];
  }

  lemma TextKept(b: seq<char>, c: seq<char>, i: nat, p: string, from: nat, to: nat)
    requires Text(b, i, p) && Outside(c, b, from, to) && to <= i
    ensures Text(c, i, p)
  {
    forall k | i <= k <= i + |p|
      ensures c[k] == b[k]
    {
      assert c[k] == c[to..][k - to] && b[k] == b[to..][k - to];
    }
    assert c[i..i + |p|] == b[i..i + |p|];
  }

  lemma Stored(b: seq<char>, c: seq<char>, s: nat, x: char)
    requires s < |b| && c == b[s := x]
    ensures Outside(c, b, s, s + 1) && Holds(c, s, [x])
  {
  }

  // ----- copying -----

  /** `memmove(a + dst, a + src, n)` */
  method MemMove(a: array<char>, dst: nat, src: nat, n: nat)
    requires dst + n <= a.Length && src + n <= a.Length
    modifies a
    ensures a[..] == old(a[..dst] + a[src..src + n] + a[dst + n..])
  {
    forall i | 0 <= i < n {
      a[dst + i] := a[src + i];
    }
  }

  method StrLen(a: array<char>, at: nat, ghost p: string) returns (n: nat)
    requires Text(a[..], at, p)
    ensures n == |p|
  {
    n := 0;
    ghost var q := p;
    NonEmpty(a[..], at, q);
    while a[at + n] != '\0'
      invariant n + |q| == |p| && Text(a[..], at + n, q) && at + n < a.Length && (a[at + n] == '\0' <==> q == "")
      decreases |q|
    {
      TextAt(a[..], at + n, q);
      n, q := n + 1, q[1..];
      NonEmpty(a[..], at + n, q);
    }
  }

  /** `memmove(a + dst, a + src, strlen(a + src) + 1)` */
  method MoveText(a: array<char>, dst: nat, src: nat, ghost rest: string)
    requires dst + |rest| < a.Length && Text(a[..], src, rest)
    modifies a
    ensures Text(a[..], dst, rest) && Outside(a[..], old(a[..]), dst, dst + |rest| + 1)
    ensures dst <= src ==> Outside(a[..], old(a[..]), dst, src + |rest|)
  {
    var n := StrLen(a, src, rest);
    ghost var b := a[..];
    MemMove(a, dst, src, n + 1);
    Moved(b, a[..], dst, src, rest);
  }

  lemma Middle(p: seq<char>, m: seq<char>, q: seq<char>)
    ensures var c := p + m + q; c[..|p|] == p && c[|p|..|p| + |m|] == m && c[|p| + |m|..] == q
  {
  }

  lemma Inside(c: seq<char>, at: nat, m: seq<char>, n: nat)
    requires at + |m| <= |c| && c[at..at + |m|] == m && n < |m|
    ensures c[at..at + n] == m[..n] && c[at + n] == m[n]
  {
    assert c[at..at + |m|][n] == c[at + n];
    assert c[at..at + n] == c[at..at + |m|][..n];
  }

  lemma Moved(b: seq<char>, c: seq<char>, dst: nat, src: nat, rest: string)
    requires dst + |rest| < |b| && Text(b, src, rest)
    requires c == b[..dst] + b[src..src + |rest| + 1] + b[dst + |rest| + 1..]
    ensures Text(c, dst, rest) && Outside(c, b, dst, dst + |rest| + 1)
    ensures dst <= src ==> Outside(c, b, dst, src + |rest|)
  {
    var n, m := |rest|, b[src..src + |rest| + 1];
    Middle(b[..dst], m, b[dst + n + 1..]);
    assert m[..n] == rest && m[n] == '\0';
    Inside(c, dst, m, n);
    if dst <= src {
      forall i | src + |rest| <= i < |b|
        ensures c[i] == b[i]
      {
        if i == src + |rest| && dst < src {
          assert c[i] == b[i];
        }
      }
      assert c[src + |rest|..] == b[src + |rest|..];
    }
  }

  /** Character by character, as `*(s++) = ...` does. */
  method Write(a: array<char>, at: nat, s: string)
    requires at + |s| <= a.Length
    modifies a
    ensures Holds(a[..], at, s) && Outside(a[..], old(a[..]), at, at + |s|)
  {
    var i := 0;
    while i < |s|
      invariant i <= |s|
      invariant forall k :: 0 <= k < i ==> a[at + k] == s[k]
      invariant forall k :: 0 <= k < at || at + i <= k < a.Length ==> a[k] == old(a[k])
    {
      a[at + i] := s[i];
      i := i + 1;
    }
  }

  // ----- line ends -----

  /** Behind a carriage return: a line feed belongs to it. */
  function SkipFeed(p: string): (r: string)
    requires p != ""
    ensures |r| < |p|
  {
    if Second(p) == '\n' then p[2..] else p[1..]
  }

  /** Every line end as one line feed. */
  function Normal(p: string): string
    decreases |p|
  {
    if p == "" then ""
    else if p[0] == '\r' then "\n" + Normal(SkipFeed(p))
    else [p[0]] + Normal(p[1..])
  }

  lemma {:induction false} NormalNulFree(p: string)
    requires NulFree(p)
    ensures NulFree(Normal(p)) && |Normal(p)| <= |p|
    decreases |p|
  {
    if p != "" {
      NormalNulFree(if p[0] == '\r' then SkipFeed(p) else p[1..]);
    }
  }

  /** The text ends in a carriage return, with or without a line feed: the loop would run past its end. */
  predicate EndsInReturn(p: string)
    decreases |p|
  {
    p != "" && if p[0] == '\r' then SkipFeed(p) == "" || EndsInReturn(SkipFeed(p)) else EndsInReturn(p[1..])
  }

  /** `*(s++) = x` */
  method Store(a: array<char>, s: nat, x: char, ghost p: string)
    requires Text(a[..], s, p) && p != ""
    modifies a
    ensures Text(a[..], s + 1, p[1..]) && Holds(a[..], s, [x]) && Outside(a[..], old(a[..]), s, s + 1)
  {
    hide *;
    ghost var b := a[..];
    TextAt(b, s, p);
    a[s] := x;
    Stored(b, a[..], s, x);
    TextKept(b, a[..], s + 1, p[1..], s, s + 1);
  }

  /** A line feed at `s` goes if it belongs to the carriage return before it. */
  method DropFeed(a: array<char>, s: nat, ghost q: string)
    requires Text(a[..], s, q)
    modifies a
    ensures Text(a[..], s, if Head(q) == '\n' && q != "" then q[1..] else q)
    ensures Outside(a[..], old(a[..]), s, s + |q|)
  {
    hide *;
    TextAt(a[..], s, q);
    NonEmpty(a[..], s, q);
    InRange(a[..], s, q);
    Unchanged(a[..], s, s + |q|);
    if a[s] == '\n' {
      TextDrop(a[..], s, q, 1);
      MoveText(a, s, s + 1, q[1..]);
    }
  }

  lemma Unchanged(b: seq<char>, from: nat, to: nat)
    requires from <= to <= |b|
    ensures Outside(b, b, from, to)
  {
  }

  /** A carriage return at `s`, with the line feed behind it, becomes a line feed. */
  method OneReturn(a: array<char>, s: nat, ghost p: string)
    requires Text(a[..], s, p) && p != "" && p[0] == '\r'
    modifies a
    ensures Text(a[..], s + 1, SkipFeed(p)) && Holds(a[..], s, "\n") && Outside(a[..], old(a[..]), s, s + |p|)
  {
    hide *;
    ghost var b := a[..];
    Store(a, s, '\n', p);
    ghost var c := a[..];
    InRange(c, s + 1, p[1..]);
    Widen(c, b, s, s + 1, s, s + |p|);
    DropFeed(a, s + 1, p[1..]);
    FeedNext(p);
    HoldsKept(c, a[..], s, "\n", s + 1, s + |p|);
    OutsideThen(a[..], c, b, s + 1, s + |p|, s, s + |p|);
  }

  lemma FeedNext(p: string)
    requires p != ""
    ensures SkipFeed(p) == if Head(p[1..]) == '\n' && p[1..] != "" then p[1..][1..] else p[1..]
  {
  }

  /** Up to `s` the text is normal; `q` is left. */
  ghost predicate NormalAt(b: seq<char>, from: nat, s: nat, q: string, goal: string) {
    from <= s && Text(b, s, q) && !EndsInReturn(q) && goal == b[from..s] + Normal(q)
  }

  lemma NormalStep(b: seq<char>, from: nat, s: nat, q: string, goal: string)
    requires NormalAt(b, from, s, q, goal) && q != "" && q[0] != '\r'
    ensures NormalAt(b, from, s + 1, q[1..], goal)
  {
    TextAt(b, s, q);
    assert b[from..s + 1] == b[from..s] + [q[0]];
    Shift(b[from..s], q[0], Normal(q[1..]));
  }

  lemma NormalReturn(b: seq<char>, c: seq<char>, from: nat, s: nat, q: string, goal: string)
    requires NormalAt(b, from, s, q, goal) && q != "" && q[0] == '\r'
    requires Outside(c, b, s, s + |q|) && Holds(c, s, "\n") && Text(c, s + 1, SkipFeed(q))
    ensures NormalAt(c, from, s + 1, SkipFeed(q), goal)
  {
    HoldsKept(b, c, from, b[from..s], s, s + |q|);
    assert c[s] == c[s..s + 1][0];
    assert c[from..s + 1] == c[from..s] + [c[s]];
    Shift(b[from..s], '\n', Normal(SkipFeed(q)));
  }

  lemma Shift(u: string, x: char, v: string)
    ensures u + ([x] + v) == u + [x] + v
  {
  }

  /** The same, `c` being the buffer at first, which changes between `from` and `to` only. */
  ghost predicate Normalizing(b: seq<char>, c: seq<char>, from: nat, to: nat, s: nat, q: string, goal: string) {
    NormalAt(b, from, s, q, goal) && Outside(b, c, from, to) && s + |q| <= to && s < |b| && b[s] == Head(q)
  }

  method ReturnTurn(a: array<char>, from: nat, s: nat, ghost to: nat, ghost q: string, ghost goal: string,
                    ghost c: seq<char>)
    requires Normalizing(a[..], c, from, to, s, q, goal) && q != "" && q[0] == '\r'
    modifies a
    ensures SkipFeed(q) != "" && Normalizing(a[..], c, from, to, s + 1, SkipFeed(q), goal)
  {
    hide *;
    NormalText(a[..], c, from, to, s, q, goal);
    ghost var b := a[..];
    OneReturn(a, s, q);
    NormalReturn(b, a[..], from, s, q, goal);
    OutsideThen(a[..], b, c, s, s + |q|, from, to);
    NormalizingIs(a[..], c, from, to, s + 1, SkipFeed(q), goal);
  }

  lemma NormalText(b: seq<char>, c: seq<char>, from: nat, to: nat, s: nat, q: string, goal: string)
    requires Normalizing(b, c, from, to, s, q, goal)
    ensures NormalAt(b, from, s, q, goal) && Text(b, s, q) && Outside(b, c, from, to) && from <= s && s + |q| <= to
    ensures s < |b| && b[s] == Head(q)
    ensures q != "" && q[0] == '\r' ==> SkipFeed(q) != ""
  {
  }

  lemma NormalizingIs(b: seq<char>, c: seq<char>, from: nat, to: nat, s: nat, q: string, goal: string)
    requires NormalAt(b, from, s, q, goal) && Outside(b, c, from, to) && s + |q| <= to
    ensures Normalizing(b, c, from, to, s, q, goal)
  {
    TextAt(b, s, q);
  }

  /** `while (*s == '\\r')` */
  method ReturnRun(a: array<char>, from: nat, s0: nat, ghost to: nat, ghost q0: string, ghost goal: string,
                   ghost c: seq<char>) returns (s: nat, ghost q: string)
    requires Normalizing(a[..], c, from, to, s0, q0, goal) && q0 != ""
    modifies a
    ensures Normalizing(a[..], c, from, to, s, q, goal) && q != "" && q[0] != '\r' && |q| <= |q0|
  {
    hide *;
    s, q := s0, q0;
    NormalText(a[..], c, from, to, s, q, goal);
    HeadIs(q);
    while a[s] == '\r'
      invariant Normalizing(a[..], c, from, to, s, q, goal) && q != "" && |q| <= |q0|
      invariant s < a.Length && a[s] == q[0]
      decreases |q|
    {
      ReturnTurn(a, from, s, to, q, goal, c);
      q := SkipFeed(q);
      s := s + 1;
      NormalText(a[..], c, from, to, s, q, goal);
      HeadIs(q);
    }
  }

  lemma HeadIs(q: string)
    ensures q != "" ==> Head(q) == q[0]
    ensures NulFree(q) ==> (Head(q) == '\0' <==> q == "")
  {
  }

  lemma NormalDone(b: seq<char>, c: seq<char>, from: nat, to: nat, s: nat, goal: string)
    requires Normalizing(b, c, from, to, s, "", goal) && NulFree(goal)
    ensures Text(b, from, goal)
  {
    assert goal == b[from..s];
  }

  lemma NormalNext(b: seq<char>, c: seq<char>, from: nat, to: nat, s: nat, q: string, goal: string)
    requires Normalizing(b, c, from, to, s, q, goal) && q != "" && q[0] != '\r'
    ensures Normalizing(b, c, from, to, s + 1, q[1..], goal)
  {
    NormalStep(b, from, s, q, goal);
    TextAt(b, s + 1, q[1..]);
  }

  lemma NormalStart(b: seq<char>, from: nat, p: string)
    requires Text(b, from, p) && !EndsInReturn(p)
    ensures Normalizing(b, b, from, from + |p|, from, p, Normal(p)) && NulFree(Normal(p)) && |Normal(p)| <= |p|
  {
    TextAt(b, from, p);
    assert b[from..from] == "";
    NormalNulFree(p);
  }

  /** The first loop of `ezxml_decode`. */
  method NormalizeLines(a: array<char>, from: nat, ghost p: string)
    requires Text(a[..], from, p) && !EndsInReturn(p)
    modifies a
    ensures Text(a[..], from, Normal(p)) && |Normal(p)| <= |p|
    ensures Outside(a[..], old(a[..]), from, from + |p|)
  {
    hide *;
    var s: nat := from;
    ghost var q, goal, to, c := p, Normal(p), from + |p|, a[..];
    NormalStart(c, from, p);
    NormalText(c, c, from, to, s, q, goal);
    NonEmpty(c, s, q);
    while a[s] != '\0'
      invariant Normalizing(a[..], c, from, to, s, q, goal) && s < a.Length && (a[s] == '\0' <==> q == "")
      decreases |q|
    {
      s, q := ReturnRun(a, from, s, to, q, goal, c);
      NormalNext(a[..], c, from, to, s, q, goal);
      s, q := s + 1, q[1..];
      NormalText(a[..], c, from, to, s, q, goal);
      NonEmpty(a[..], s, q);
    }
    NormalText(a[..], c, from, to, s, q, goal);
    NormalDone(a[..], c, from, to, s, goal);
  }

  // ----- references -----

  /** `strchr(a + at, ';')` */
  method FindSemi(a: array<char>, at: nat, ghost p: string) returns (e: nat)
    requires Text(a[..], at, p) && ';' in p
    ensures at <= e && e + 1 + |Behind(p)| == at + |p| && Text(a[..], e + 1, Behind(p)) && a[e] == ';'
  {
    e := at;
    ghost var q := p;
    TextAt(a[..], e, q);
    while a[e] != ';'
      invariant at <= e && e + |q| == at + |p| && Text(a[..], e, q) && ';' in q && Behind(q) == Behind(p)
      invariant a[e] == q[0]
      decreases |q|
    {
      TextAt(a[..], e, q);
      e, q := e + 1, q[1..];
      TextAt(a[..], e, q);
    }
    TextAt(a[..], e, q);
  }

  /** What `strtol` passes over in front of the digits. */
  method SkipLead(a: array<char>, at: nat, base: nat, ghost p: string) returns (e: nat)
    requires Text(a[..], at, p)
    ensures e == at + Lead(p, base) && Text(a[..], e, p[Lead(p, base)..])
  {
    hide Text;
    var b := SkipBlanks(a, at, p);
    ghost var n := Blanks(p);
    Here(a[..], at, p, n);
    e := b;
    if a[b] == '+' {
      e := e + 1;
      n := n + 1;
    }
    if base == 16 {
      Here(a[..], at, p, n);
      if a[e] == '0' {
        Here(a[..], at, p, n + 1);
        if a[e + 1] == 'x' || a[e + 1] == 'X' {
          Here(a[..], at, p, n + 2);
          if IsDigitIn(a[e + 2], 16) {
            e := e + 2;
          }
        }
      }
    }
    TextDrop(a[..], at, p, Lead(p, base));
  }

  /** The character at place `n` of a text. */
  lemma Here(b: seq<char>, i: nat, p: string, n: nat)
    requires Text(b, i, p) && n <= |p|
    ensures i + n < |b| && b[i + n] == (if n < |p| then p[n] else '\0') && (n < |p| ==> p[n] != '\0')
  {
    assert n < |p| ==> b[i..i + |p|][n] == p[n];
  }

  method SkipBlanks(a: array<char>, at: nat, ghost p: string) returns (e: nat)
    requires Text(a[..], at, p)
    ensures e == at + Blanks(p)
  {
    hide Text;
    e := at;
    ghost var n: nat := 0;
    Here(a[..], at, p, 0);
    assert p[0..] == p;
    while IsSpace(a[e])
      invariant e == at + n && n <= |p| && Blanks(p) == n + Blanks(p[n..])
      invariant e < a.Length && a[e] == if n < |p| then p[n] else '\0'
      decreases |p| - n
    {
      assert p[n..][1..] == p[n + 1..] && p[n..][0] == p[n];
      e, n := e + 1, n + 1;
      Here(a[..], at, p, n);
    }
  }

  /** `strtol` */
  method ReadNumber(a: array<char>, at: nat, base: nat, ghost p: string) returns (c: nat, e: nat)
    requires Text(a[..], at, p)
    ensures c == Number(p, base).value
    ensures e == at + |p| - |Number(p, base).rest| && Text(a[..], e, Number(p, base).rest)
  {
    e := SkipLead(a, at, base, p);
    c := 0;
    ghost var v := p[Lead(p, base)..];
    ghost var q := v;
    TextAt(a[..], e, q);
    while IsDigitIn(a[e], base)
      invariant at <= e && e + |q| == at + |p| && Text(a[..], e, q) && a[e] == Head(q)
      invariant Strtol(c, q, base) == Strtol(0, v, base)
      decreases |q|
    {
      TextAt(a[..], e, q);
      c := Capped(c * base + DigitIn(a[e], base));
      e, q := e + 1, q[1..];
      TextAt(a[..], e, q);
    }
  }

  /** The character reference at `s`, if it is one: `! c || *e != ';'`. */
  method ReadCharRef(a: array<char>, s: nat, ghost p: string) returns (c: nat)
    requires Text(a[..], s, p) && "&#" <= p
    ensures CharRefAt(p) == if c == 0 then NoRef else CharRef(c)
    ensures c <= LONG_MAX
  {
    var e;
    TextDrop(a[..], s, p, 2);
    TextAt(a[..], s + 2, p[2..]);
    if a[s + 2] == 'x' {
      TextDrop(a[..], s, p, 3);
      c, e := ReadNumber(a, s + 3, 16, p[3..]);
      TextAt(a[..], e, Number(p[3..], 16).rest);
    } else {
      c, e := ReadNumber(a, s + 2, 10, p[2..]);
      TextAt(a[..], e, Number(p[2..], 10).rest);
    }
    if a[e] != ';' {
      c := 0;
    }
  }

  function Power(x: nat, n: nat): nat {
    if n == 0 then 1 else x * Power(x, n - 1)
  }

  /** A number of `d` digits is below `base^d`. */
  lemma {:induction false} NumberBound(p: string, base: nat, acc: nat)
    requires ';' in p && (base == 16 || base == 10)
    requires Head(Strtol(acc, p, base).rest) == ';'
    ensures Strtol(acc, p, base).value < (acc + 1) * Power(base, |p| - |Behind(p)| - 1)
    decreases |p|
  {
    if p[0] != ';' {
      var a := Capped(acc * base + DigitIn(p[0], base));
      NumberBound(p[1..], base, a);
      NumberStep(a, acc, base, DigitIn(p[0], base), Power(base, |p[1..]| - |Behind(p[1..])| - 1));
    }
  }

  lemma NumberStep(a: nat, acc: nat, base: nat, d: nat, m: nat)
    requires a <= acc * base + d && d < base
    ensures (a + 1) * m <= (acc + 1) * (base * m)
  {
    MulMonotone(a + 1, (acc + 1) * base, m);
    assert (acc + 1) * base * m == (acc + 1) * (base * m);
  }

  lemma MulMonotone(x: nat, y: nat, m: nat)
    requires x <= y
    ensures x * m <= y * m
  {
  }

  lemma {:induction false} PowerMonotone(x: nat, m: nat, n: nat)
    requires m <= n && x > 0
    ensures 0 < Power(x, m) <= Power(x, n)
    decreases n
  {
    if m < n {
      PowerMonotone(x, m, n - 1);
      MulMonotone(1, x, Power(x, n - 1));
    } else if n > 0 {
      PowerMonotone(x, n - 1, n - 1);
    }
  }

  /** A character written with `d` digits has fewer bytes than the reference. */
  lemma FewBytes(c: nat, base: nat, d: nat)
    requires 0 < c <= LONG_MAX && c < Power(base, d) && (base == 16 || base == 10)
    ensures |Utf8Bits.BitEncode(c)| < d + (if base == 16 then 4 else 3)
  {
    Utf8Bits.BitEncodeSafe(c);
    if c < 0x110000 {
      Utf8Bits.BitsAreUtf8(c);
    }
    assert Power(10, 1) == 10 && Power(10, 3) == 1000 && Power(16, 2) == 256;
    if base == 10 && d <= 3 {
      PowerMonotone(10, d, 3);
      if d <= 1 { PowerMonotone(10, d, 1); }
    }
    if base == 16 && d <= 2 {
      PowerMonotone(16, d, 2);
    }
  }

  lemma LeadIs(q: string, base: nat)
    ensures Lead(q, base) <= |q| && forall i :: 0 <= i < Lead(q, base) ==> q[i] != ';'
  {
  }

  lemma RefFitsFrom(p: string, i: nat, base: nat, c: nat)
    requires i + 1 == (if base == 16 then 4 else 3) && i <= |p| && (base == 16 || base == 10)
    requires (forall k :: 0 <= k < i ==> p[k] != ';') && Head(Number(p[i..], base).rest) == ';'
    requires c == Number(p[i..], base).value && 0 < c <= LONG_MAX
    ensures ';' in p && |Utf8Bits.BitEncode(c)| + |Behind(p)| < |p|
  {
    hide Strtol, Lead, Behind, Power, Utf8Bits.BitEncode;
    var q := p[i..];
    LeadIs(q, base);
    var v := q[Lead(q, base)..];
    StrtolSemi(0, v, base);
    BehindFrom(q, Lead(q, base));
    BehindFrom(p, i);
    NumberBound(v, base, 0);
    assert c < Power(base, |v| - |Behind(v)| - 1);
    FewBytes(c, base, |v| - |Behind(v)| - 1);
  }

  /** The bytes of a character are fewer than those of a reference to it. */
  lemma RefFits(p: string, c: nat)
    requires "&#" <= p && CharRefAt(p) == CharRef(c) && c <= LONG_MAX
    ensures ';' in p && |Utf8Bits.BitEncode(c)| + |Behind(p)| < |p|
  {
    if Head(p[2..]) == 'x' {
      RefFitsFrom(p, 3, 16, c);
    } else {
      RefFitsFrom(p, 2, 10, c);
    }
  }

  // ----- the turns of the second loop -----

  /** The entities, their ranks, a bound on these, and the mode. */
  datatype Context = Context(ents: seq<Entity>, rank: seq<nat>, n: nat, t: char)

  ghost predicate Ready(x: Context) {
    Usable(x.ents, x.rank) && Below(x.rank, x.n) && forall i :: 0 <= i < |x.ents| ==> NulFree(x.ents[i].value)
  }

  ghost function Expanded(q: string, x: Context): Expansion
    requires Ready(x)
  {
    Expand(q, x.ents, x.rank, x.n, x.t)
  }

  /** From `base` to `s` the text is decoded; `q` is left. */
  ghost predicate Decoding(b: seq<char>, base: nat, s: nat, q: string, goal: string, x: Context)
    requires Ready(x)
  {
    && base <= s && Text(b, s, q) && NulFree(b[base..s]) && goal == b[base..s] + Expanded(q, x).text
    && b[s] == Head(q)
  }

  /** `w` is written, `rest` is left. */
  lemma Turn(b: seq<char>, c: seq<char>, base: nat, s: nat, q: string, w: string, rest: string, goal: string,
             x: Context)
    requires Ready(x) && Decoding(b, base, s, q, goal, x) && NulFree(w)
    requires Expanded(q, x).text == w + Expanded(rest, x).text
    requires Outside(c, b, s, s + |q|) && Holds(c, s, w) && Text(c, s + |w|, rest)
    ensures Decoding(c, base, s + |w|, rest, goal, x)
  {
    HoldsKept(b, c, base, b[base..s], s, s + |q|);
    Join(c, base, s, s + |w|);
    Seqs.Assoc(b[base..s], w, Expanded(rest, x).text);
    TextAt(c, s + |w|, rest);
  }

  lemma Join(c: seq<char>, i: nat, j: nat, k: nat)
    requires i <= j <= k <= |c|
    ensures c[i..k] == c[i..j] + c[j..k]
  {
  }

  /** The value of an entity is put in; the text before it may have moved. */
  lemma TurnEntity(b: seq<char>, c: seq<char>, base: nat, s: nat, base': nat, s': nat, q: string, rest: string,
                   goal: string, x: Context)
    requires Ready(x) && Decoding(b, base, s, q, goal, x)
    requires Expanded(q, x).text == Expanded(rest, x).text
    requires base' <= s' <= |c| && c[base'..s'] == b[base..s] && Text(c, s', rest)
    ensures Decoding(c, base', s', rest, goal, x)
  {
    TextAt(c, s', rest);
  }

  lemma AllBelow(q: string, x: Context)
    requires Ready(x)
    ensures RefsBelow(q, x.ents, x.rank, x.n)
  {
  }

  /** A character that stands for itself. */
  ghost predicate Itself(q: string, x: Context) {
    q != "" && (q[0] != '&' || x.t == 'c' || RefAt(q, x.ents).NoRef?)
  }

  lemma ItselfTurn(q: string, x: Context)
    requires Ready(x) && Itself(q, x)
    ensures Expanded(q, x) == Then(Plain(q[0], x.t), Expanded(q[1..], x))
  {
  }

  /** `while (*s && *s != '&' && !isspace(*s)) s++;` */
  method Skip(a: array<char>, s0: nat, ghost base: nat, ghost q0: string, ghost goal: string, ghost x: Context)
    returns (s: nat, ghost q: string)
    requires Ready(x) && Decoding(a[..], base, s0, q0, goal, x)
    ensures Decoding(a[..], base, s, q, goal, x) && s + |q| == s0 + |q0|
    ensures Expanded(q, x).steps <= Expanded(q0, x).steps
    ensures s < a.Length && a[s] == Head(q) && (q != "" ==> q[0] == '&' || IsSpace(q[0]))
  {
    s, q := s0, q0;
    ghost var b := a[..];
    assert a[s] == b[s];
    while a[s] != '\0' && a[s] != '&' && !IsSpace(a[s])
      invariant Decoding(b, base, s, q, goal, x) && s + |q| == s0 + |q0|
      invariant Expanded(q, x).steps <= Expanded(q0, x).steps
      invariant s < a.Length && a[s] == Head(q)
      decreases |q|
    {
      SkipTurn(b, base, s, q, goal, x);
      s, q := s + 1, q[1..];
      assert a[s] == b[s];
    }
  }

  lemma SkipTurn(b: seq<char>, base: nat, s: nat, q: string, goal: string, x: Context)
    requires Ready(x) && Decoding(b, base, s, q, goal, x) && Itself(q, x) && Plain(q[0], x.t).text == [q[0]]
    ensures Decoding(b, base, s + 1, q[1..], goal, x) && Expanded(q[1..], x).steps < Expanded(q, x).steps
  {
    ItselfTurn(q, x);
    TextAt(b, s, q);
    assert Outside(b, b, s, s + |q|) && Holds(b, s, [q[0]]);
    Turn(b, b, base, s, q, [q[0]], q[1..], goal, x);
  }

  /** `*(s++) = ' '` in attribute values, and `s++`. */
  method StepOver(a: array<char>, s: nat, t: char, ghost base: nat, ghost q: string, ghost goal: string,
                  ghost x: Context)
    requires Ready(x) && Decoding(a[..], base, s, q, goal, x) && Itself(q, x) && t == x.t
    modifies a
    ensures Decoding(a[..], base, s + 1, q[1..], goal, x) && Expanded(q[1..], x).steps < Expanded(q, x).steps
    ensures Outside(a[..], old(a[..]), s, s + |q|)
  {
    ItselfTurn(q, x);
    ghost var b := a[..];
    TextAt(b, s, q);
    if t == ' ' && IsSpace(a[s]) {
      a[s] := ' ';
    }
    ghost var c := a[..];
    assert Outside(c, b, s, s + 1) && Holds(c, s, Plain(q[0], t).text);
    TextKept(b, c, s + 1, q[1..], s, s + 1);
    Widen(c, b, s, s + 1, s, s + |q|);
    Turn(b, c, base, s, q, Plain(q[0], t).text, q[1..], goal, x);
  }

  lemma RefTurn(q: string, x: Context, c: nat)
    requires Ready(x) && "&#" <= q && x.t != 'c' && CharRefAt(q) == CharRef(c) && c <= LONG_MAX
    ensures ';' in q && Expanded(q, x) == Then(Code(c), Expanded(Behind(q), x))
    ensures NulFree(Utf8Bits.BitEncode(c))
  {
    RefFits(q, c);
    Utf8Bits.BitEncodeSafe(c);
  }

  lemma SemiBehind(p: string, k: nat)
    requires ';' in p && k + |Behind(p)| < |p|
    ensures ';' in p[k..] && Behind(p[k..]) == Behind(p)
    decreases |p|
  {
    if k > 0 {
      assert p[0] != ';';
      SemiBehind(p[1..], k - 1);
      assert p[1..][k - 1..] == p[k..];
    }
  }

  /** The text moves up from behind the semicolon. */
  method CloseUp(a: array<char>, at: nat, ghost p: string)
    requires Text(a[..], at, p) && ';' in p
    modifies a
    ensures Text(a[..], at, Behind(p)) && Outside(a[..], old(a[..]), at, at + |p|)
  {
    hide *;
    var e := FindSemi(a, at, p);
    MoveText(a, at, e + 1, Behind(p));
  }

  /** A character reference: the bytes `w`, and the rest of the text moved up. */
  method PutChar(a: array<char>, s: nat, w: string, ghost q: string)
    requires Text(a[..], s, q) && ';' in q && |w| + |Behind(q)| < |q|
    modifies a
    ensures Text(a[..], s + |w|, Behind(q)) && Holds(a[..], s, w) && Outside(a[..], old(a[..]), s, s + |q|)
  {
    hide *;
    ghost var b := a[..];
    TextDrop(b, s, q, |w|);
    Write(a, s, w);
    ghost var c := a[..];
    TextKept(b, c, s + |w|, q[|w|..], s, s + |w|);
    SemiBehind(q, |w|);
    CloseUp(a, s + |w|, q[|w|..]);
    HoldsKept(c, a[..], s, w, s + |w|, s + |q|);
    Widen(c, b, s, s + |w|, s, s + |q|);
    OutsideThen(a[..], c, b, s + |w|, s + |q|, s, s + |q|);
  }

  // ----- entities -----

  lemma PrefixStep(n: string, q: string)
    requires n != ""
    ensures n <= q <==> q != "" && q[0] == n[0] && n[1..] <= q[1..]
  {
    if n <= q {
      assert n[1..] == q[1..][..|n| - 1];
    }
    if q != "" && q[0] == n[0] && n[1..] <= q[1..] {
      assert n == [n[0]] + n[1..] && q == [q[0]] + q[1..];
    }
  }

  /** `! strncmp(a + at, name, strlen(name))` */
  method StartsWith(a: array<char>, at: nat, name: string, ghost p: string) returns (y: bool)
    requires Text(a[..], at, p) && NulFree(name)
    ensures y <==> name <= p
  {
    hide Text;
    var k: nat := 0;
    ghost var q := p;
    TextAt(a[..], at, q);
    assert name[0..] == name;
    while k < |name| && a[at + k] == name[k]
      invariant k <= |name| && (name <= p <==> name[k..] <= q)
      invariant Text(a[..], at + k, q) && at + k < a.Length && a[at + k] == Head(q)
    {
      PrefixStep(name[k..], q);
      TextAt(a[..], at + k, q);
      assert name[k..][1..] == name[k + 1..];
      k, q := k + 1, q[1..];
      TextAt(a[..], at + k, q);
    }
    y := k == |name|;
    if k < |name| {
      PrefixStep(name[k..], q);
    }
  }

  /** The search of the entity list: the index of the match, or the length of the list. */
  method FindEntity(a: array<char>, at: nat, ents: seq<Entity>, ghost p: string) returns (b: nat)
    requires Text(a[..], at, p) && forall i :: 0 <= i < |ents| ==> NulFree(ents[i].name)
    ensures b == Match(p, ents)
  {
    b := 0;
    while b < |ents|
      invariant b <= |ents| && forall i :: 0 <= i < b ==> !(ents[i].name <= p)
    {
      var y := StartsWith(a, at, ents[b].name, p);
      if y {
        break;
      }
      b := b + 1;
    }
    MatchIs(p, ents, b);
  }

  lemma MatchIs(p: string, ents: seq<Entity>, b: nat)
    requires b <= |ents| && (forall i :: 0 <= i < b ==> !(ents[i].name <= p)) && (b < |ents| ==> ents[b].name <= p)
    ensures Match(p, ents) == b
  {
    var m := Match(p, ents);
    assert m < |ents| ==> ents[m].name <= p;
  }

  lemma TextJoin(b: seq<char>, s: nat, v: string, rest: string)
    requires Holds(b, s, v) && NulFree(v) && Text(b, s + |v|, rest)
    ensures Text(b, s, v + rest)
  {
    assert b[s..s + |v + rest|] == b[s..s + |v|] + b[s + |v|..s + |v| + |rest|];
  }

  /** The value `v` in place of the reference that ends at `e`; the rest of the text moves. */
  method PutValue(a: array<char>, s: nat, e: nat, v: string, ghost q: string, ghost rest: string)
    requires Text(a[..], e + 1, rest) && s <= e && e + 1 + |rest| == s + |q| && s + |v| + |rest| < a.Length
      && NulFree(v)
    modifies a
    ensures Text(a[..], s, v + rest) && Outside(a[..], old(a[..]), s, s + |v| + |rest| + 1)
    ensures |v| + |rest| <= |q| ==> Outside(a[..], old(a[..]), s, s + |q|)
  {
    hide *;
    ghost var b := a[..];
    MoveText(a, s + |v|, e + 1, rest);
    ghost var c := a[..];
    Widen(c, b, s + |v|, s + |v| + |rest| + 1, s, s + |v| + |rest| + 1);
    if |v| + |rest| <= |q| {
      Widen(c, b, s + |v|, s + |q|, s, s + |q|);
    }
    Write(a, s, v);
    TextKept(c, a[..], s + |v|, rest, s, s + |v|);
    TextJoin(a[..], s, v, rest);
    OutsideThen(a[..], c, b, s, s + |v|, s, s + |v| + |rest| + 1);
    if |v| + |rest| <= |q| {
      OutsideThen(a[..], c, b, s, s + |v|, s, s + |q|);
    }
  }

  /** A buffer of `l` characters with the text from `base` on: `strcpy(malloc(l), r)` or `realloc(r, l)`. */
  method Grow(a: array<char>, base: nat, s: nat, l: nat, ghost q: string) returns (r: array<char>)
    requires Text(a[..], s, q) && base <= s && s - base + |q| < l
    ensures fresh(r) && r.Length == l && Holds(r[..], 0, a[base..s]) && Text(r[..], s - base, q)
  {
    r := new char[l];
    var n := StrLen(a, s, q);
    forall i | 0 <= i <= s - base + n {
      r[i] := a[base + i];
    }
    assert r[0..s - base] == a[base..s];
    assert r[s - base..s - base + n] == a[s..s + n];
  }

  /** The reference at `s` is replaced by the value of its entity, in a larger buffer if there is no room. */
  method PutEntity(a: array<char>, base: nat, s: nat, v: string, ghost q: string)
    returns (r: array<char>, base': nat, s': nat)
    requires Text(a[..], s, q) && base <= s && ';' in q && NulFree(v)
    modifies a
    ensures base' <= s' <= r.Length && r[base'..s'] == old(a[base..s]) && Text(r[..], s', v + Behind(q))
    ensures |v| + |Behind(q)| <= |q| ==> r == a && base' == base && s' == s && Outside(a[..], old(a[..]), s, s + |q|)
    ensures |v| + |Behind(q)| > |q| ==> fresh(r) && base' == 0 && a[..] == old(a[..])
  {
    hide *;
    InRange(a[..], s, q);
    ghost var a0 := a[base..s];
    var c := |v|;
    var e := FindSemi(a, s, q);
    Slice(a[..], base, s);
    if c - 1 > e - s {
      var d := s - base;
      var n := StrLen(a, e + 1, Behind(q));
      r := Grow(a, base, s, d + c + n + 1, q);
      base', s' := 0, d;
      e := FindSemi(r, s', q);
      SliceIs(r[..], 0, d, a[base..s]);
    } else {
      r, base', s' := a, base, s;
    }
    ghost var b := r[..];
    PutValue(r, s', e, v, q, Behind(q));
    HoldsKept(b, r[..], base', a0, s', s' + |v| + |Behind(q)| + 1);
    SliceIs(r[..], base', s', a0);
  }

  lemma Slice(b: seq<char>, i: nat, j: nat)
    requires i <= j <= |b|
    ensures Holds(b, i, b[i..j])
  {
  }

  lemma SliceIs(b: seq<char>, i: nat, j: nat, w: string)
    requires Holds(b, i, w) && j == i + |w|
    ensures j <= |b| && b[i..j] == w
  {
  }

  // ----- the second loop -----

  lemma RefCases(q: string, x: Context)
    requires Ready(x) && q != "" && q[0] == '&' && x.t != 'c'
    ensures "&#" <= q ==> RefAt(q, x.ents) == CharRefAt(q)
    ensures !("&#" <= q)
      ==> RefAt(q, x.ents) == if Match(q[1..], x.ents) < |x.ents| then EntRef(Match(q[1..], x.ents)) else NoRef
    ensures RefAt(q, x.ents).NoRef? ==> Itself(q, x)
    ensures !RefAt(q, x.ents).NoRef? ==> ';' in q
  {
    if !RefAt(q, x.ents).NoRef? {
      RefHasSemi(q, x.ents);
    }
  }

  /** A character reference at `s`. */
  method CharTurn(a: array<char>, s: nat, c: nat, ghost base: nat, ghost q: string, ghost goal: string,
                  ghost x: Context)
    returns (s': nat, ghost q': string)
    requires Ready(x) && Decoding(a[..], base, s, q, goal, x)
    requires "&#" <= q && x.t != 'c' && CharRefAt(q) == CharRef(c) && c <= LONG_MAX
    modifies a
    ensures Decoding(a[..], base, s', q', goal, x) && s' + |q'| <= s + |q|
    ensures Expanded(q', x).steps < Expanded(q, x).steps && Outside(a[..], old(a[..]), s, s + |q|)
  {
    hide *;
    var w := Utf8Bits.BitEncode(c);
    RefFits(q, c);
    q' := Behind(q);
    CharFacts(a[..], base, s, q, w, c, goal, x);
    ghost var b := a[..];
    PutChar(a, s, w, q);
    Turn(b, a[..], base, s, q, w, q', goal, x);
    s' := s + |w|;
  }

  lemma CharFacts(b: seq<char>, base: nat, s: nat, q: string, w: string, c: nat, goal: string, x: Context)
    requires Ready(x) && Decoding(b, base, s, q, goal, x) && w == Utf8Bits.BitEncode(c)
    requires "&#" <= q && x.t != 'c' && CharRefAt(q) == CharRef(c) && c <= LONG_MAX
    ensures Text(b, s, q) && ';' in q && NulFree(w) && |w| + |Behind(q)| < |q|
    ensures Expanded(q, x).text == w + Expanded(Behind(q), x).text
    ensures Expanded(Behind(q), x).steps < Expanded(q, x).steps
  {
    RefFits(q, c);
    RefTurn(q, x, c);
  }

  lemma ValueTurn(q: string, x: Context, b: nat)
    requires Ready(x) && q != "" && q[0] == '&' && x.t != 'c' && RefAt(q, x.ents) == EntRef(b) && ';' in q
    ensures b < |x.ents| && NulFree(x.ents[b].value)
    ensures var r := x.ents[b].value + Behind(q);
      Expanded(r, x).text == Expanded(q, x).text && Expanded(r, x).steps < Expanded(q, x).steps
  {
    AllBelow(q, x);
    Rescan(q, x.ents, x.rank, x.n, b, x.t);
  }

  /** What a turn leaves: the same buffer, changed in the text only, or a new one. */
  twostate predicate SameOrNew(a: array<char>, new r: array<char>, base: nat, base': nat, s: nat, n: nat, s': nat,
                               n': nat)
    reads a, r
  {
    || (r == a && base' == base && Outside(a[..], old(a[..]), s, s + n) && s' + n' <= s + n)
    || (fresh(r) && base' == 0 && a[..] == old(a[..]))
  }

  /** A reference to the entity at `b`. */
  method EntityTurn(a: array<char>, base: nat, s: nat, v: string, ghost b: nat,
                    ghost q: string, ghost goal: string, ghost x: Context)
    returns (r: array<char>, base': nat, s': nat, ghost q': string)
    requires Ready(x) && Decoding(a[..], base, s, q, goal, x) && b < |x.ents| && v == x.ents[b].value
    requires q != "" && q[0] == '&' && x.t != 'c' && RefAt(q, x.ents) == EntRef(b) && ';' in q
    modifies a
    ensures Decoding(r[..], base', s', q', goal, x) && Expanded(q', x).steps < Expanded(q, x).steps
    ensures SameOrNew(a, r, base, base', s, |q|, s', |q'|)
  {
    ValueTurn(q, x, b);
    q' := v + Behind(q);
    ghost var c := a[..];
    r, base', s' := PutEntity(a, base, s, v, q);
    TurnEntity(c, r[..], base, s, base', s', q, q', goal, x);
  }

  /** `s++` or `*(s++) = ' '` where there is nothing to replace. */
  method PlainTurn(a: array<char>, s: nat, t: char, ghost base: nat, ghost q: string, ghost goal: string,
                   ghost x: Context)
    returns (s': nat, ghost q': string)
    requires Ready(x) && Decoding(a[..], base, s, q, goal, x) && Itself(q, x) && t == x.t
    modifies a
    ensures Decoding(a[..], base, s', q', goal, x) && Expanded(q', x).steps < Expanded(q, x).steps
    ensures Outside(a[..], old(a[..]), s, s + |q|) && s' + |q'| <= s + |q|
  {
    StepOver(a, s, t, base, q, goal, x);
    s', q' := s + 1, q[1..];
  }

  /** At "&#": `strtol`, and the character if it gives one. */
  method AtNumber(a: array<char>, s: nat, t: char, ghost base: nat, ghost q: string, ghost goal: string,
                  ghost x: Context)
    returns (s': nat, ghost q': string)
    requires Ready(x) && Decoding(a[..], base, s, q, goal, x) && x.t == t && t != 'c' && "&#" <= q
    modifies a
    ensures Decoding(a[..], base, s', q', goal, x) && Expanded(q', x).steps < Expanded(q, x).steps
    ensures Outside(a[..], old(a[..]), s, s + |q|) && s' + |q'| <= s + |q|
  {
    RefCases(q, x);
    var c := ReadCharRef(a, s, q);
    if c == 0 {
      s', q' := PlainTurn(a, s, t, base, q, goal, x);
    } else {
      s', q' := CharTurn(a, s, c, base, q, goal, x);
    }
  }

  /** At an ampersand before a name: the entity, if it is declared. */
  method AtName(a: array<char>, base: nat, s: nat, ents: seq<Entity>, t: char,
                ghost q: string, ghost goal: string, ghost x: Context)
    returns (r: array<char>, base': nat, s': nat, ghost q': string)
    requires Ready(x) && Decoding(a[..], base, s, q, goal, x) && x.ents == ents && x.t == t && t != 'c'
    requires q != "" && q[0] == '&' && !("&#" <= q)
    requires forall i :: 0 <= i < |ents| ==> NulFree(ents[i].name)
    modifies a
    ensures Decoding(r[..], base', s', q', goal, x) && Expanded(q', x).steps < Expanded(q, x).steps
    ensures SameOrNew(a, r, base, base', s, |q|, s', |q'|)
  {
    RefCases(q, x);
    TextAt(a[..], s, q);
    var b := FindEntity(a, s + 1, ents, q[1..]);
    if b < |ents| {
      r, base', s', q' := EntityTurn(a, base, s, ents[b].value, b, q, goal, x);
    } else {
      r, base' := a, base;
      s', q' := PlainTurn(a, s, t, base, q, goal, x);
    }
  }

  /** One turn of the second loop of `ezxml_decode`, at an ampersand or at white space. */
  method Stop(a: array<char>, base: nat, s: nat, ents: seq<Entity>, t: char,
              ghost q: string, ghost goal: string, ghost x: Context)
    returns (r: array<char>, base': nat, s': nat, ghost q': string)
    requires Ready(x) && Decoding(a[..], base, s, q, goal, x) && x.ents == ents && x.t == t && q != ""
    requires forall i :: 0 <= i < |ents| ==> NulFree(ents[i].name)
    modifies a
    ensures Decoding(r[..], base', s', q', goal, x) && Expanded(q', x).steps < Expanded(q, x).steps
    ensures SameOrNew(a, r, base, base', s, |q|, s', |q'|)
  {
    hide Expanded, Ready, NulFree, Text;
    r, base' := a, base;
    TextAt(a[..], s, q);
    if t != 'c' && a[s] == '&' {
      TextAt(a[..], s + 1, q[1..]);
      Hash(q);
      if a[s + 1] == '#' {
        s', q' := AtNumber(a, s, t, base, q, goal, x);
      } else {
        r, base', s', q' := AtName(a, base, s, ents, t, q, goal, x);
      }
    } else {
      s', q' := PlainTurn(a, s, t, base, q, goal, x);
    }
  }

  lemma Hash(q: string)
    requires q != "" && q[0] == '&'
    ensures "&#" <= q <==> Head(q[1..]) == '#'
  {
  }

  lemma StartDecoding(b: seq<char>, from: nat, q: string, x: Context)
    requires Ready(x) && Text(b, from, q)
    ensures Decoding(b, from, from, q, Expanded(q, x).text, x)
  {
    TextAt(b, from, q);
    assert b[from..from] == "";
  }

  lemma Finished(b: seq<char>, base: nat, s: nat, q: string, goal: string, x: Context)
    requires Ready(x) && Decoding(b, base, s, q, goal, x) && Head(q) == '\0'
    ensures Text(b, base, goal)
  {
    HeadIs(q);
    assert goal == b[base..s];
  }

  lemma DecodingStops(b: seq<char>, base: nat, s: nat, q: string, goal: string, x: Context)
    requires Ready(x) && Decoding(b, base, s, q, goal, x)
    ensures s < |b| && b[s] == Head(q) && (Head(q) == '\0' <==> q == "")
  {
    HeadIs(q);
  }

  /** A turn, and the search for the next place. */
  method DecodeTurn(m: array<char>, r0: array<char>, base0: nat, s0: nat, ents: seq<Entity>, t: char,
                    ghost from: nat, ghost to: nat, ghost c: seq<char>, ghost q0: string, ghost goal: string,
                    ghost x: Context)
    returns (r: array<char>, base: nat, s: nat, ghost q: string)
    requires Ready(x) && Decoding(r0[..], base0, s0, q0, goal, x) && x.ents == ents && x.t == t && q0 != ""
    requires forall i :: 0 <= i < |ents| ==> NulFree(ents[i].name)
    requires Outside(m[..], c, from, to) && (r0 == m ==> base0 == from && s0 + |q0| <= to)
    modifies r0
    ensures Decoding(r[..], base, s, q, goal, x) && Expanded(q, x).steps < Expanded(q0, x).steps
    ensures Outside(m[..], c, from, to) && (r == m ==> base == from && s + |q| <= to) && (r == r0 || fresh(r))
  {
    ghost var b := m[..];
    r, base, s, q := Stop(r0, base0, s0, ents, t, q0, goal, x);
    if r0 == m && r == m {
      OutsideThen(m[..], b, c, s0, s0 + |q0|, from, to);
    }
    s, q := Skip(r, s, base, q, goal, x);
  }

  /**
   `ezxml_decode` of the text `p` at `from`: what is found at the returned place is the text with normalised line ends
   and every reference replaced; when the result is not in the old buffer it is in a new one.
   */
  method Decode(m: array<char>, from: nat, ents: seq<Entity>, t: char, ghost p: string, ghost x: Context)
    returns (r: array<char>, base: nat)
    requires Ready(x) && x.ents == ents && x.t == t && forall i :: 0 <= i < |ents| ==> NulFree(ents[i].name)
    requires Text(m[..], from, p) && !EndsInReturn(p)
    modifies m
    ensures Text(r[..], base, Expanded(Normal(p), x).text)
    ensures Outside(m[..], old(m[..]), from, from + |p|)
    ensures (r == m && base == from) || fresh(r)
  {
    hide *;
    ghost var c := m[..];
    NormalizeLines(m, from, p);
    ghost var q, to := Normal(p), from + |p|;
    ghost var goal := Expanded(q, x).text;
    var s: nat := from;
    r, base := m, from;
    StartDecoding(m[..], from, q, x);
    s, q := Skip(r, s, base, q, goal, x);
    DecodingStops(r[..], base, s, q, goal, x);
    while r[s] != '\0'
      invariant Decoding(r[..], base, s, q, goal, x) && s < r.Length && r[s] == Head(q)
        && (Head(q) == '\0' <==> q == "")
      invariant Outside(m[..], c, from, to) && (r == m ==> base == from && s + |q| <= to) && (r == m || fresh(r))
      decreases Expanded(q, x).steps
    {
      r, base, s, q := DecodeTurn(m, r, base, s, ents, t, from, to, c, q, goal, x);
      DecodingStops(r[..], base, s, q, goal, x);
    }
    Finished(r[..], base, s, q, goal, x);
  }
}