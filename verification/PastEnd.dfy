/**
 The two loops that may run behind the terminator of a text: for which texts
 the reading index passes it.
 */
module PastEnd {
  import opened CText
  import XmlText
  import opened JsonMinify

  // ----- ezxml_decode: the line ends -----

  /** `while (*s == '\r') { *(s++) = '\n'; if (*s == '\n') memmove(...); }`, from index `j`. */
  function AfterReturns(p: string, j: nat): (r: (string, nat))
    requires j <= |p|
    ensures r.1 <= |r.0| && |r.0| - r.1 <= |p| - j && r.0[r.1..] == Behind(p[j..])
    decreases |p| - j
  {
    if j == |p| || p[j] != '\r' then (p, j)
    else
      var q, k := p[j := '\n'], j + 1;
      assert p[j..][0] == '\r' && p[j..][1..] == q[k..];
      if k < |q| && q[k] == '\n' then
        var r := q[..k] + q[k + 1..];
        assert r[k..] == p[j..][2..];
        AfterReturns(r, k)
      else AfterReturns(q, k)
  }

  /** The text behind such a run of line ends. */
  function Behind(p: string): (r: string)
    ensures |r| <= |p|
    decreases |p|
  {
    if p == "" || p[0] != '\r' then p else Behind(XmlText.SkipFeed(p))
  }

  /** `for (; *s; s++)`: whether the index passes the terminator. */
  predicate LinesPass(p: string, j: nat)
    decreases |p| + 1 - j
  {
    if j > |p| then true
    else if j == |p| then false
    else var r := AfterReturns(p, j); LinesPass(r.0, r.1 + 1)
  }

  lemma {:induction false} BehindEnds(p: string)
    ensures p != "" && Behind(p) == "" ==> XmlText.EndsInReturn(p)
    ensures Behind(p) != "" ==> (XmlText.EndsInReturn(p) <==> XmlText.EndsInReturn(Behind(p)[1..]))
    decreases |p|
  {
    if p != "" && p[0] == '\r' {
      BehindEnds(XmlText.SkipFeed(p));
    }
  }

  lemma {:induction false} LinesPassFrom(p: string, j: nat)
    requires j <= |p|
    ensures LinesPass(p, j) <==> XmlText.EndsInReturn(p[j..])
    decreases |p| - j
  {
    hide AfterReturns, Behind, XmlText.EndsInReturn;
    if j < |p| {
      var r := AfterReturns(p, j);
      BehindEnds(p[j..]);
      if r.1 < |r.0| {
        assert r.0[r.1..][1..] == r.0[r.1 + 1..];
        LinesPassFrom(r.0, r.1 + 1);
      } else {
        assert r.0[r.1..] == "";
      }
    } else {
      NothingEnds(p[j..]);
    }
  }

  lemma NothingEnds(p: string)
    requires p == ""
    ensures !XmlText.EndsInReturn(p)
  {
  }

  /** The loop passes the terminator exactly on the texts that `XmlText.Decode` excludes. */
  lemma LinesPassExactly(p: string)
    ensures LinesPass(p, 0) <==> XmlText.EndsInReturn(p)
  {
    LinesPassFrom(p, 0);
    assert p[0..] == p;
  }

  /** These are the texts that end in a carriage return, or in one and a line feed. */
  lemma {:induction false} EndsInReturnMeans(p: string)
    ensures XmlText.EndsInReturn(p) <==>
      p != "" && (p[|p| - 1] == '\r' || (|p| > 1 && p[|p| - 2] == '\r' && p[|p| - 1] == '\n'))
    decreases |p|
  {
    if p != "" {
      EndsInReturnMeans(if p[0] == '\r' then XmlText.SkipFeed(p) else p[1..]);
    }
  }

  // ----- cJSON_Minify -----

  function CharAt(s: string, j: nat): char {
    if j < |s| then s[j] else '\0'
  }

  /** `while (*json && *json != '\n') json++;` */
  function LineStop(s: string, j: nat): (k: nat)
    requires j <= |s|
    ensures j <= k <= |s| && s[k..] == SkipLine(s[j..])
    decreases |s| - j
  {
    if j == |s| || s[j] == '\n' then j
    else
      assert s[j..][1..] == s[j + 1..];
      LineStop(s, j + 1)
  }

  /** `while (*json && !(*json == '*' && json[1] == '/')) json++;` */
  function BlockStop(s: string, j: nat): (k: nat)
    requires j <= |s|
    ensures j <= k <= |s|
    decreases |s| - j
  {
    if j == |s| || (s[j] == '*' && CharAt(s, j + 1) == '/') then j else BlockStop(s, j + 1)
  }

  /** `while (*json && *json != '\"') { if (*json == '\\') json++; json++; }` */
  function LiteralStop(s: string, j: nat): (k: nat)
    ensures j <= k
    decreases |s| - j
  {
    if j >= |s| || s[j] == '\"' then j else LiteralStop(s, j + if s[j] == '\\' then 2 else 1)
  }

  /** The outer loop: whether the index passes the terminator. */
  predicate MinifyPasses(s: string, j: nat)
    decreases |s| + 1 - j
  {
    if j > |s| then true
    else if j == |s| then false
    else if s[j] == '/' && CharAt(s, j + 1) == '/' then
      assert LineStop(s, j) > j by { assert LineStop(s, j) == LineStop(s, j + 1); }
      MinifyPasses(s, LineStop(s, j))
    else if s[j] == '/' && CharAt(s, j + 1) == '*' then MinifyPasses(s, BlockStop(s, j) + 2)
    else if s[j] == '\"' then MinifyPasses(s, LiteralStop(s, j + 1) + 1)
    else MinifyPasses(s, j + 1)
  }

  lemma {:induction false} BlockStopIs(s: string, j: nat)
    requires j <= |s|
    ensures var k := BlockStop(s, j);
      if BlockEnds(s[j..]) then k + 2 <= |s| && s[k + 2..] == SkipBlock(s[j..]) else k == |s|
    decreases |s| - j
  {
    if j < |s| {
      StarSlash(s[j..]);
      assert s[j..][1..] == s[j + 1..] && (j + 1 < |s| ==> s[j..][1] == s[j + 1]);
      if s[j] == '*' && CharAt(s, j + 1) == '/' {
        assert s[j..][2..] == s[j + 2..];
      } else {
        BlockStopIs(s, j + 1);
      }
    }
  }

  lemma {:induction false} LiteralStopIs(s: string, j: nat)
    requires j <= |s|
    ensures var k := LiteralStop(s, j);
      if LiteralEnds(s[j..]) then k < |s| && k + 1 == j + LiteralLength(s[j..]) else k >= |s|
    decreases |s| - j
  {
    if j < |s| && s[j] != '\"' {
      var n := if s[j] == '\\' then 2 else 1;
      if j + n <= |s| {
        assert s[j..][n..] == s[j + n..];
        LiteralStopIs(s, j + n);
      }
    }
  }

  /** One turn of the outer loop: it reads behind the terminator, or `k` is the next index. */
  ghost predicate Turn(s: string, j: nat, k: nat)
    requires j < |s|
  {
    && k > j
    && (MinifyPasses(s, j) <==> MinifyPasses(s, k))
    && (k > |s| ==> !Closed(s[j..]))
    && (k <= |s| ==> (Closed(s[j..]) <==> Closed(s[k..])))
  }

  lemma LineTurn(s: string, j: nat)
    requires j < |s| && s[j] == '/' && CharAt(s, j + 1) == '/'
    ensures Turn(s, j, LineStop(s, j))
  {
    hide BlockStop, LiteralStop, BlockEnds, SkipBlock, LiteralEnds, LiteralLength;
    assert LineStop(s, j) == LineStop(s, j + 1);
    assert s[j..][0] == s[j] && s[j..][1] == s[j + 1];
  }

  lemma BlockTurn(s: string, j: nat)
    requires j < |s| && s[j] == '/' && CharAt(s, j + 1) == '*'
    ensures Turn(s, j, BlockStop(s, j) + 2)
  {
    BlockStopIs(s, j);
    hide LineStop, SkipLine, BlockStop, LiteralStop, BlockEnds, SkipBlock, LiteralEnds, LiteralLength;
    assert s[j..][0] == s[j] && s[j..][1] == s[j + 1];
  }

  lemma LiteralTurn(s: string, j: nat)
    requires j < |s| && s[j] == '\"'
    ensures Turn(s, j, LiteralStop(s, j + 1) + 1)
  {
    hide LineStop, SkipLine, BlockStop, LiteralStop, BlockEnds, SkipBlock, LiteralEnds, LiteralLength;
    hide MinifyPasses, Closed;
    LiteralStopIs(s, j + 1);
    var t, k := s[j..], LiteralStop(s, j + 1);
    assert t[0] == s[j] && t[1..] == s[j + 1..];
    ClosedLiteral(t);
    if k < |s| {
      assert t[k + 1 - j..] == s[k + 1..];
    }
    TurnPasses(s, j);
  }

  lemma ClosedLiteral(t: string)
    requires t != "" && t[0] == '\"'
    ensures Closed(t) <==> LiteralEnds(t[1..]) && Closed(t[1 + LiteralLength(t[1..])..])
  {
    hide LiteralEnds, LiteralLength;
  }

  lemma TurnPasses(s: string, j: nat)
    requires j < |s| && s[j] == '\"'
    ensures MinifyPasses(s, j) <==> MinifyPasses(s, LiteralStop(s, j + 1) + 1)
  {
    hide LiteralStop;
  }

  lemma OtherTurn(s: string, j: nat)
    requires j < |s| && s[j] != '\"'
    requires !(s[j] == '/' && (CharAt(s, j + 1) == '/' || CharAt(s, j + 1) == '*'))
    ensures Turn(s, j, j + 1)
  {
    hide LineStop, SkipLine, BlockStop, LiteralStop, BlockEnds, SkipBlock, LiteralEnds, LiteralLength;
    assert s[j..][0] == s[j] && s[j..][1..] == s[j + 1..] && (j + 1 < |s| ==> s[j..][1] == s[j + 1]);
  }

  lemma {:induction false} MinifyPassesFrom(s: string, j: nat)
    requires j <= |s|
    ensures MinifyPasses(s, j) <==> !Closed(s[j..])
    decreases |s| - j
  {
    hide LineStop, SkipLine, BlockStop, LiteralStop, BlockEnds, SkipBlock, LiteralEnds, LiteralLength;
    if j < |s| {
      hide MinifyPasses, Closed;
      var k;
      if s[j] == '/' && CharAt(s, j + 1) == '/' {
        k := LineStop(s, j);
        LineTurn(s, j);
      } else if s[j] == '/' && CharAt(s, j + 1) == '*' {
        k := BlockStop(s, j) + 2;
        BlockTurn(s, j);
      } else if s[j] == '\"' {
        k := LiteralStop(s, j + 1) + 1;
        LiteralTurn(s, j);
      } else {
        k := j + 1;
        OtherTurn(s, j);
      }
      if k <= |s| {
        MinifyPassesFrom(s, k);
      } else {
        BeyondPasses(s, k);
      }
    }
  }

  lemma BeyondPasses(s: string, k: nat)
    requires k > |s|
    ensures MinifyPasses(s, k)
  {
  }

  /** The loop passes the terminator exactly on the texts that `JsonMinify.Minify` excludes. */
  lemma MinifyPassesExactly(s: string)
    ensures MinifyPasses(s, 0) <==> !Closed(s)
  {
    MinifyPassesFrom(s, 0);
    assert s[0..] == s;
  }
}
