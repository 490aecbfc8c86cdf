/**
 What the minifier leaves of any text: its literals, and every other character
 that is neither a blank nor in a comment.  What a document means does not
 change.
 */
module JsonPieces {
  import Seqs
  import opened CText
  import opened JsonMinify

  /** A blank, another character, a comment or a literal, without its quotes. */
  datatype Piece =
    | Space(c: char)
    | Other(c: char)
    | LineComment(text: string)
    | BlockComment(text: string)
    | ShortComment
    | Literal(text: string)

  function PieceText(p: Piece, rest: string): string {
    match p
    case Space(c) => [c] + rest
    case Other(c) => [c] + rest
    case LineComment(text) => "//" + (text + rest)
    case BlockComment(text) => "/*" + (text + ("*/" + rest))
    case ShortComment => "/*/" + rest
    case Literal(text) => "\"" + (text + ("\"" + rest))
  }

  function TextOf(ps: seq<Piece>): string {
    if ps == [] then "" else PieceText(ps[0], TextOf(ps[1..]))
  }

  predicate IsSpaceOrBreak(c: char) {
    c == ' ' || c == 9 as char || c == 10 as char || c == 13 as char
  }

  /** No `w` in `s`. */
  predicate Lacks(s: string, w: string) {
    forall i :: 0 <= i <= |s| ==> !(w <= s[i..])
  }

  /** Between two quotes: a backslash takes the next character with it. */
  predicate Inside(t: string) {
    t == "" || (if t[0] == '\\' then |t| > 1 && Inside(t[2..]) else t[0] != '\"' && Inside(t[1..]))
  }

  /** `rest` is the text behind the piece. */
  predicate PieceOk(p: Piece, rest: string) {
    match p
    case Space(c) => IsSpaceOrBreak(c)
    case Other(c) => !IsSpaceOrBreak(c) && c != '\"' && (c == '/' ==> Head(rest) != '/' && Head(rest) != '*')
    case LineComment(text) => '\n' !in text && (rest == "" || rest[0] == '\n')
    case BlockComment(text) => Lacks("*" + text, "*/")
    case ShortComment => true
    case Literal(text) => Inside(text)
  }

  predicate PiecesOk(ps: seq<Piece>) {
    ps == [] || (PieceOk(ps[0], TextOf(ps[1..])) && PiecesOk(ps[1..]))
  }

  /** What is left of a piece, in front of `rest`. */
  function Left(p: Piece, rest: string): string {
    match p
    case Other(c) => [c] + rest
    case Literal(text) => "\"" + (text + ("\"" + rest))
    case _ => rest
  }

  function LeftOf(ps: seq<Piece>): string {
    if ps == [] then "" else Left(ps[0], LeftOf(ps[1..]))
  }

  lemma {:induction false} SkipLineIs(text: string, rest: string)
    requires '\n' !in text && (rest == "" || rest[0] == '\n')
    ensures SkipLine(text + rest) == rest
    decreases |text|
  {
    if text == "" {
      assert text + rest == rest;
    } else {
      assert (text + rest)[0] == text[0] && (text + rest)[1..] == text[1..] + rest;
      assert forall c :: c in text[1..] ==> c in text;
      SkipLineIs(text[1..], rest);
    }
  }

  lemma LineGone(text: string, rest: string)
    requires PieceOk(LineComment(text), rest) && Closed(rest)
    ensures var s := "//" + (text + rest); Closed(s) && Minified(s) == Minified(rest)
  {
    var s := "//" + (text + rest);
    assert s[1..] == "/" + (text + rest) && s[1..][1..] == text + rest;
    SkipLineIs(text, rest);
    hide Minified, Closed;
    LineStep(s, rest);
  }

  lemma LineStep(s: string, rest: string)
    requires |s| > 1 && s[0] == '/' && s[1] == '/' && SkipLine(s[1..][1..]) == rest && Closed(rest)
    ensures Closed(s) && Minified(s) == Minified(rest)
  {
    assert s[1..][0] == '/';
    assert SkipLine(s) == SkipLine(s[1..]) == rest;
  }

  lemma LacksTail(s: string, w: string)
    requires Lacks(s, w) && s != ""
    ensures Lacks(s[1..], w)
  {
    forall i | 0 <= i <= |s[1..]|
      ensures !(w <= s[1..][i..])
    {
      assert s[1..][i..] == s[i + 1..];
    }
  }

  lemma {:induction false} SkipBlockIs(t: string, rest: string)
    requires Lacks(t, "*/")
    ensures BlockEnds(t + ("*/" + rest)) && SkipBlock(t + ("*/" + rest)) == rest
    decreases |t|
  {
    var s := t + ("*/" + rest);
    if t == "" {
      assert s == "*/" + rest && s[2..] == rest;
    } else {
      assert s[0] == t[0] && s[1..] == t[1..] + ("*/" + rest);
      LacksTail(t, "*/");
      SkipBlockIs(t[1..], rest);
      assert !("*/" <= s) by {
        assert t[0..] == t;
      }
    }
  }

  lemma BlockStep(s: string, rest: string)
    requires |s| > 1 && s[0] == '/' && s[1] == '*' && BlockEnds(s[1..]) && SkipBlock(s[1..]) == rest && Closed(rest)
    ensures Closed(s) && Minified(s) == Minified(rest)
  {
    assert !("*/" <= s);
    hide Closed, Minified;
    BlockStep2(s, rest);
  }

  lemma BlockStep2(s: string, rest: string)
    requires |s| > 1 && s[0] == '/' && s[1] == '*' && BlockEnds(s) && SkipBlock(s) == rest && Closed(rest)
    ensures Closed(s) && Minified(s) == Minified(rest)
  {
    hide BlockEnds, SkipBlock;
  }

  lemma BlockGone(text: string, rest: string)
    requires Lacks("*" + text, "*/") && Closed(rest)
    ensures var s := "/*" + (text + ("*/" + rest)); Closed(s) && Minified(s) == Minified(rest)
  {
    var s := "/*" + (text + ("*/" + rest));
    SkipBlockIs("*" + text, rest);
    assert s[1..] == "*" + text + ("*/" + rest);
    hide *;
    BlockStep(s, rest);
  }

  lemma ShortGone(rest: string)
    requires Closed(rest)
    ensures Closed("/*/" + rest) && Minified("/*/" + rest) == Minified(rest)
  {
    var s := "/*/" + rest;
    assert s[1..] == "*/" + rest && s[1..][2..] == rest;
    hide Closed, Minified;
    BlockStep(s, rest);
  }

  lemma {:induction false} InsideLength(t: string, rest: string)
    requires Inside(t)
    ensures var s := t + ("\"" + rest); LiteralEnds(s) && LiteralLength(s) == |t| + 1
    decreases |t|
  {
    var s := t + ("\"" + rest);
    if t == "" {
      assert s == "\"" + rest;
    } else if t[0] == '\\' {
      assert s[2..] == t[2..] + ("\"" + rest);
      InsideLength(t[2..], rest);
    } else {
      assert s[1..] == t[1..] + ("\"" + rest);
      InsideLength(t[1..], rest);
    }
  }

  lemma LiteralKept(t: string, rest: string)
    requires Inside(t) && Closed(rest)
    ensures var s := "\"" + (t + ("\"" + rest));
      Closed(s) && Minified(s) == "\"" + (t + ("\"" + Minified(rest)))
  {
    var s := "\"" + (t + ("\"" + rest));
    InsideLength(t, rest);
    assert s[1..] == t + ("\"" + rest);
    var n := |t| + 2;
    assert s[n..] == rest && s[..n] == "\"" + (t + "\"");
    Regroup(t, Minified(rest));
    LiteralStep(s, n);
    hide LiteralEnds, LiteralLength, Closed, Minified;
  }

  lemma LiteralStep(s: string, n: nat)
    requires s != "" && s[0] == '\"' && LiteralEnds(s[1..]) && n == 1 + LiteralLength(s[1..]) && Closed(s[n..])
    ensures Closed(s) && Minified(s) == s[..n] + Minified(s[n..])
  {
    hide LiteralEnds, LiteralLength;
  }

  lemma Regroup(t: string, m: string)
    ensures "\"" + (t + "\"") + m == "\"" + (t + ("\"" + m))
  {
  }

  lemma OtherKept(c: char, rest: string)
    requires PieceOk(Other(c), rest) && Closed(rest)
    ensures Closed([c] + rest) && Minified([c] + rest) == [c] + Minified(rest)
  {
    var s := [c] + rest;
    assert s[0] == c && s[1..] == rest && Second(s) == Head(rest);
    hide LiteralEnds, LiteralLength, BlockEnds, SkipBlock, SkipLine;
  }

  lemma SpaceGone(c: char, rest: string)
    requires IsSpaceOrBreak(c) && Closed(rest)
    ensures Closed([c] + rest) && Minified([c] + rest) == Minified(rest)
  {
    var s := [c] + rest;
    assert s[0] == c && s[1..] == rest;
    hide LiteralEnds, LiteralLength, BlockEnds, SkipBlock, SkipLine;
  }

  /** Of any pieces the literals and the other characters are left. */
  lemma {:induction false} MinifiedIs(ps: seq<Piece>)
    requires PiecesOk(ps)
    ensures Closed(TextOf(ps)) && Minified(TextOf(ps)) == LeftOf(ps)
    decreases |ps|
  {
    hide Closed, Minified, PieceOk;
    if ps != [] {
      var rest := TextOf(ps[1..]);
      MinifiedIs(ps[1..]);
      Keeps(ps[0], rest);
    } else {
      Nothing();
    }
  }

  lemma Nothing()
    ensures Closed("") && Minified("") == ""
  {
  }

  lemma Keeps(p: Piece, rest: string)
    requires PieceOk(p, rest) && Closed(rest)
    ensures Closed(PieceText(p, rest)) && Minified(PieceText(p, rest)) == Left(p, Minified(rest))
  {
    hide Closed, Minified, Inside, Lacks;
    match p {
      case Space(c) => SpaceGone(c, rest);
      case Other(c) => OtherKept(c, rest);
      case LineComment(text) => LineGone(text, rest);
      case BlockComment(text) => BlockGone(text, rest);
      case ShortComment => ShortGone(rest);
      case Literal(text) => LiteralKept(text, rest);
    }
  }

  /** Every text that the minifier can read to its end is made of such pieces. */
  lemma {:induction false} OnlyPieces(s: string) returns (ps: seq<Piece>)
    requires Closed(s)
    ensures PiecesOk(ps) && TextOf(ps) == s
    decreases |s|
  {
    if s == "" {
      ps := [];
    } else {
      var p, rest := FirstPiece(s);
      var more := OnlyPieces(rest);
      ps := [p] + more;
      assert ps[1..] == more;
      hide Closed, PieceOk, PieceText;
    }
  }

  lemma FirstPiece(s: string) returns (p: Piece, rest: string)
    requires s != "" && Closed(s)
    ensures |rest| < |s| && Closed(rest) && PieceOk(p, rest) && PieceText(p, rest) == s
  {
    hide SkipLine, BlockEnds, SkipBlock, LiteralEnds, LiteralLength, Inside, Lacks;
    assert s == [s[0]] + s[1..];
    if s[0] == '/' && Second(s) == '/' {
      var text;
      SlashLine(s);
      text, rest := LineOf(s[2..]);
      p := LineComment(text);
      assert s == "//" + s[2..];
    } else if s[0] == '/' && Second(s) == '*' {
      rest := SkipBlock(s);
      SlashBlock(s);
      p := BlockOf(s, rest);
    } else if s[0] == '\"' {
      var n := LiteralLength(s[1..]);
      rest := s[1 + n..];
      var text := LiteralOf(s[1..], rest);
      p := Literal(text);
    } else {
      rest := s[1..];
      p := if IsSpaceOrBreak(s[0]) then Space(s[0]) else Other(s[0]);
    }
  }

  lemma SlashLine(s: string)
    requires |s| > 1 && s[0] == '/' && s[1] == '/'
    ensures SkipLine(s) == SkipLine(s[2..])
  {
    assert s[1..][0] == '/' && s[1..][1..] == s[2..];
  }

  lemma {:induction false} LineOf(s: string) returns (text: string, rest: string)
    ensures rest == SkipLine(s) && s == text + rest && '\n' !in text && (rest == "" || rest[0] == '\n')
    decreases |s|
  {
    if s == "" || s[0] == '\n' {
      text, rest := "", s;
    } else {
      var more;
      more, rest := LineOf(s[1..]);
      text := [s[0]] + more;
      assert s == [s[0]] + s[1..];
    }
  }

  lemma SlashBlock(s: string)
    requires |s| > 1 && s[0] == '/' && s[1] == '*' && BlockEnds(s)
    ensures BlockEnds(s[1..]) && SkipBlock(s) == SkipBlock(s[1..])
  {
    assert !("*/" <= s);
  }

  lemma BlockOf(s: string, rest: string) returns (p: Piece)
    requires |s| > 1 && s[0] == '/' && s[1] == '*' && BlockEnds(s[1..]) && SkipBlock(s[1..]) == rest
    ensures PieceOk(p, rest) && PieceText(p, rest) == s
  {
    var t := BlockText(s[1..]);
    assert s == "/" + s[1..];
    if t == "" {
      p := ShortComment;
    } else {
      p := BlockComment(t[1..]);
      assert t[0] == '*' && t == "*" + t[1..];
    }
  }

  lemma {:induction false} BlockText(s: string) returns (t: string)
    requires BlockEnds(s)
    ensures Lacks(t, "*/") && s == t + ("*/" + SkipBlock(s))
    decreases |s|
  {
    if "*/" <= s {
      t := "";
      assert s == "*/" + s[2..];
    } else {
      var u := BlockText(s[1..]);
      t := [s[0]] + u;
      assert s == [s[0]] + s[1..];
      LacksMore(s, t, u);
    }
  }

  lemma LacksMore(s: string, t: string, u: string)
    requires s != "" && !("*/" <= s) && t == [s[0]] + u && Lacks(u, "*/") && t <= s
    ensures Lacks(t, "*/")
  {
    forall i | 0 <= i <= |t|
      ensures !("*/" <= t[i..])
    {
      if i > 0 {
        assert t[i..] == u[i - 1..];
      } else {
        assert t[0..] == t;
      }
    }
  }

  lemma {:induction false} LiteralOf(s: string, rest: string) returns (t: string)
    requires LiteralEnds(s) && s[LiteralLength(s)..] == rest
    ensures Inside(t) && s == t + ("\"" + rest)
    decreases |s|
  {
    if s[0] == '\"' {
      t := "";
      assert s == "\"" + s[1..];
    } else if s[0] == '\\' {
      assert s[2..][LiteralLength(s[2..])..] == rest;
      var u := LiteralOf(s[2..], rest);
      t := s[..2] + u;
      assert t[2..] == u && s == s[..2] + s[2..];
    } else {
      assert s[1..][LiteralLength(s[1..])..] == rest;
      var u := LiteralOf(s[1..], rest);
      t := s[..1] + u;
      assert t[1..] == u && s == s[..1] + s[1..];
    }
  }
}
