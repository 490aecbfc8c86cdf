/**
 C strings as Dafny strings.

 A `char *` into a NUL-terminated buffer is modelled by the text from that
 pointer up to (not including) the terminator, so `*p` is `Head(p)` and
 `p + n` is `p[n..]`.  Each `char` stands for one byte.
 */
module CText {

  /** `*p`: the terminator when no character is left. */
  function Head(p: string): char {
    if p == "" then '\0' else p[0]
  }

  /** `p[1]` for a pointer whose first character is not the terminator. */
  function Second(p: string): char {
    if |p| < 2 then '\0' else p[1]
  }

  predicate NulFree(s: string) {
    forall i :: 0 <= i < |s| ==> s[i] != '\0'
  }

  /** `isspace` in the C locale. */
  predicate IsSpace(c: char) {
    c == ' ' || c == '\t' || c == '\n' || c == '\r' || c == 11 as char || c == 12 as char
  }

  predicate IsDigit(c: char) {
    '0' <= c <= '9'
  }

  function DigitOf(c: char): (d: int)
    requires IsDigit(c)
    ensures 0 <= d <= 9
  {
    c as int - '0' as int
  }

  function DigitChar(d: int): (c: char)
    requires 0 <= d <= 9
    ensures IsDigit(c) && DigitOf(c) == d
  {
    ('0' as int + d) as char
  }

  /** The text of the NUL-terminated string stored in `b` at index `i`. */
  function CStr(b: seq<char>, i: nat): (s: string)
    decreases |b| - i
  {
    if i < |b| && b[i] != '\0' then [b[i]] + CStr(b, i + 1) else ""
  }

  /** `b` holds a terminated string at `i`. */
  ghost predicate HasCStr(b: seq<char>, i: nat) {
    i + |CStr(b, i)| < |b|
  }

  /** What `CStr` reads is determined by the bytes up to the terminator. */
  lemma {:induction false} CStrIs(b: seq<char>, i: nat, s: string)
    requires NulFree(s)
    requires i + |s| < |b| && b[i..i + |s|] == s && b[i + |s|] == '\0'
    ensures CStr(b, i) == s && HasCStr(b, i)
    decreases |s|
  {
    if s != "" {
      assert b[i] == s[0];
      assert b[i + 1..i + 1 + |s[1..]|] == s[1..];
      CStrIs(b, i + 1, s[1..]);
    }
  }

  lemma {:induction false} CStrSpec(b: seq<char>, i: nat)
    requires HasCStr(b, i)
    ensures b[i..i + |CStr(b, i)|] == CStr(b, i)
    ensures b[i + |CStr(b, i)|] == '\0' && NulFree(CStr(b, i))
    decreases |b| - i
  {
    if i < |b| && b[i] != '\0' {
      CStrSpec(b, i + 1);
    }
  }

  /** One step along a terminated string. */
  lemma CStrEnds(b: seq<char>, i: nat)
    ensures HasCStr(b, i) ==> i < |b|
    ensures HasCStr(b, i) && b[i] != '\0' ==> HasCStr(b, i + 1) && i + 1 < |b| && CStr(b, i) == [b[i]] + CStr(b, i + 1)
    ensures HasCStr(b, i) && b[i] == '\0' ==> CStr(b, i) == ""
  {
  }
}
