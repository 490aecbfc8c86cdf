/**
 Looking children up through the index, and taking a tag out of it.
 */
module XmlCut {
  import opened XmlIndex

  // ----- ezxml_child, ezxml_idx -----

  /** A search of the children in document order for the tag of that name with `idx` such tags before it. */
  function Lookup(s: seq<Tag>, n: string, idx: nat): Tag? {
    if s == [] then null
    else if s[0].name != n then Lookup(s[1..], n, idx)
    else if idx == 0 then s[0]
    else Lookup(s[1..], n, idx - 1)
  }

  lemma {:induction false} LookupIs(s: seq<Tag>, n: string, idx: nat)
    ensures Lookup(s, n, idx) == At(Named(s, n), idx)
  {
    if s != [] {
      var rest := Named(s[1..], n);
      if s[0].name != n {
        assert Named(s, n) == rest;
        LookupIs(s[1..], n, idx);
      } else {
        assert Named(s, n) == [s[0]] + rest;
        if idx > 0 {
          LookupIs(s[1..], n, idx - 1);
        }
      }
    }
  }

  /** The walk from the first child along `sibling` goes through `w`. */
  ghost predicate Walks(p: Tag, w: seq<Tag>)
    reads p`child, w`sibling
  {
    p.child == At(w, 0) && SiblingChain(w)
  }

  /** A walk through `w` finds of every name what a search of `s` finds. */
  ghost predicate Finds(w: seq<Tag>, s: seq<Tag>) {
    (forall t <- w :: t in s) && forall n :: Lookup(w, n, 0) == Lookup(s, n, 0)
  }

  /** The children at these places. */
  function Pick(s: seq<Tag>, places: seq<nat>): (w: seq<Tag>)
    requires forall i :: 0 <= i < |places| ==> places[i] < |s|
    ensures |w| == |places| && forall i :: 0 <= i < |w| ==> w[i] == s[places[i]]
  {
    seq(|places|, i requires 0 <= i < |places| => s[places[i]])
  }

  /** That walk goes through children and finds the first one of every name. */
  ghost predicate Serves(p: Tag, places: seq<nat>)
    reads p`child, p`kids, p.kids`sibling
  {
    && (forall i :: 0 <= i < |places| ==> places[i] < |p.kids|)
    && (forall x <- Pick(p.kids, places) :: x in p.kids)
    && Finds(Pick(p.kids, places), p.kids) && Walks(p, Pick(p.kids, places))
  }

  /** The walk of `ezxml_child` finds the first child of every name. */
  ghost predicate Visible(p: Tag)
    reads p`child, p`kids, p.kids`sibling
  {
    exists places: seq<nat> :: Serves(p, places)
  }

  lemma SeenThrough(p: Tag, w: seq<Tag>)
    requires Finds(w, p.kids) && Walks(p, w)
    ensures Visible(p)
  {
    var s := p.kids;
    var places := seq(|w|, i requires 0 <= i < |w| => At0(s, w[i]));
    assert Pick(s, places) == w;
    assert Serves(p, places);
  }

  lemma {:induction false} LookupAt(w: seq<Tag>, n: string, k: nat)
    requires FirstAt(w, n, k)
    ensures Lookup(w, n, 0) == At(w, k)
    decreases k
  {
    if k > 0 {
      LookupAt(w[1..], n, k - 1);
      assert At(w[1..], k - 1) == At(w, k);
    }
  }

  /** The firsts are enough to look a name up. */
  lemma FirstsFind(s: seq<Tag>)
    requires Distinct(s)
    ensures Finds(Firsts(s, {}), s)
  {
    forall n
      ensures Lookup(Firsts(s, {}), n, 0) == Lookup(s, n, 0)
    {
      if s != [] {
        var k := IndexHeads(s, n);
        LookupAt(Firsts(s, {}), n, k);
        LookupIs(s, n, 0);
      }
    }
  }

  lemma IndexedVisible(p: Tag)
    requires Indexed(p)
    ensures Visible(p)
  {
    FirstsFind(p.kids);
    if p.kids != [] {
      var k := IndexHeads(p.kids, p.kids[0].name);
    }
    SeenThrough(p, Firsts(p.kids, {}));
  }

  /** There is only one walk. */
  lemma {:induction false} OneWalk(v: seq<Tag>, w: seq<Tag>)
    requires SiblingChain(v) && SiblingChain(w) && At(v, 0) == At(w, 0)
    ensures v == w
    decreases |v|
  {
    if v != [] && w != [] {
      assert v[0].sibling == At(v, 1) && w[0].sibling == At(w, 1);
      ChainRest(v);
      ChainRest(w);
      OneWalk(v[1..], w[1..]);
      assert v == [v[0]] + v[1..] && w == [w[0]] + w[1..];
    }
  }

  lemma ChainRest(w: seq<Tag>)
    requires SiblingChain(w) && w != []
    ensures SiblingChain(w[1..]) && At(w[1..], 0) == At(w, 1)
  {
    forall i | 0 <= i < |w| - 1
      ensures w[1..][i].sibling == At(w[1..], i + 1)
    {
      assert w[i + 1].sibling == At(w, i + 2);
    }
  }

  /** `ezxml_child`: the walk finds what a search of all children would, wherever the index is good enough for that. */
  method Child(xml: Tag?, name: string) returns (t: Tag?)
    requires xml != null ==> Visible(xml)
    ensures t == if xml == null then null else Lookup(xml.kids, name, 0)
  {
    t := if xml != null then xml.child else null;
    if xml != null {
      ghost var places: seq<nat> :| Serves(xml, places);
      ghost var w := Pick(xml.kids, places);
      if t == null {
        LookupAt(w, name, 0);
      } else {
        var prev; ghost var k;
        prev, t, k := FindType(t, name, w);
        LookupAt(w, name, k);
      }
    }
  }

  /** `ezxml_idx`: from a tag found by `Child` or this method, `next` leads to the later tags of the name. */
  method Idx(xml: Tag?, idx: nat, ghost s: seq<Tag>, ghost name: string, ghost at: nat) returns (t: Tag?)
    requires NextListed(s, name) && xml == Lookup(s, name, at)
    ensures t == if xml == null then null else Lookup(s, name, at + idx)
  {
    t := xml;
    var left: nat := idx;
    ghost var r := Named(s, name);
    LookupIs(s, name, at);
    while t != null && left != 0
      invariant left <= idx && (t == if xml == null then null else At(r, at + idx - left))
      invariant t == null ==> At(r, at + idx) == null || xml == null
      decreases left
    {
      assert r[at + idx - left].next == At(r, at + idx - left + 1);
      t, left := t.next, left - 1;
    }
    LookupIs(s, name, at + idx);
  }

  // ----- the children without one tag -----

  /** The lists by name without the tag at `i`. */
  lemma NamedMinus(s: seq<Tag>, i: nat, n: string)
    requires i < |s|
    ensures var a, b := s[..i], s[i + 1..];
      && Named(Minus(s, i), n) == Named(a, n) + Named(b, n)
      && Named(s, n) == if s[i].name == n then Named(a, n) + [s[i]] + Named(b, n) else Named(a, n) + Named(b, n)
  {
    var a, b := s[..i], s[i + 1..];
    NamedCat(a, b, n);
    assert s == (a + [s[i]]) + b;
    NamedCat(a + [s[i]], b, n);
    if s[i].name == n {
      NamedTake(a, s[i], n);
    } else {
      NamedSkip(a, s[i], n);
    }
  }

  /** Document order is kept among the firsts. */
  lemma {:induction false} FirstsAscend(s: seq<Tag>, seen: set<string>, u: nat, v: nat)
    requires u < v < |Firsts(s, seen)|
    ensures At0(s, Firsts(s, seen)[u]) < At0(s, Firsts(s, seen)[v])
  {
    if s[0].name in seen {
      FirstsDiffer(s, seen);
      FirstsAscend(s[1..], seen, u, v);
    } else {
      FirstsDiffer(s, seen);
      var seen' := seen + {s[0].name};
      assert Firsts(s, seen) == [s[0]] + Firsts(s[1..], seen');
      assert Firsts(s, seen)[0].name == s[0].name != Firsts(s, seen)[v].name;
      assert At0(s, Firsts(s, seen)[v]) == 1 + At0(s[1..], Firsts(s, seen)[v]);
      if u > 0 {
        FirstsAscend(s[1..], seen', u - 1, v - 1);
      }
    }
  }

  lemma {:induction false} At0Behind(a: seq<Tag>, b: seq<Tag>, t: Tag)
    requires t !in a && t in b
    ensures At0(a + b, t) == |a| + At0(b, t)
  {
    if a == [] {
      assert a + b == b;
    } else {
      assert (a + b)[1..] == a[1..] + b;
      At0Behind(a[1..], b, t);
    }
  }

  /** A tag in the `sibling` chain has no tag of its name before it. */
  lemma FirstIsNew(a: seq<Tag>, xml: Tag, b: seq<Tag>)
    requires Distinct(a + [xml] + b) && xml in Firsts(a + [xml] + b, {})
    ensures xml.name !in Names(a)
  {
    var s := a + [xml] + b;
    assert s == a + ([xml] + b) && s[|a|] == xml;
    forall i | 0 <= i < |a|
      ensures a[i] != xml
    {
      assert s[i] == a[i];
    }
    if xml.name in Names(a) {
      FirstInFront(a, [xml] + b, xml);
    }
  }

  lemma {:induction false} NamedNone(a: seq<Tag>, n: string)
    requires n !in Names(a)
    ensures Named(a, n) == []
  {
    if a != [] {
      NamesCons(a);
      NamedNone(a[1..], n);
    }
  }

  /** Where the next tag of a name is among the firsts behind it. */
  lemma NextFirst(b: seq<Tag>, seen: set<string>, n: string) returns (j: nat)
    requires n !in seen
    ensures var fb, l := Firsts(b, seen), Named(b, n);
      if l == [] then Without(fb, n) == fb else j < |fb| && fb[j] == l[0] && Without(fb, n) == Minus(fb, j)
  {
    var fb, l := Firsts(b, seen), Named(b, n);
    FirstHeads(b, seen, n);
    j := |fb|;
    if l != [] {
      FirstsDiffer(b, seen);
      j :| 0 <= j < |fb| && fb[j] == l[0];
      assert forall i :: 0 <= i < |fb| && i != j ==> fb[i].name != n;
    }
    WithoutIs(fb, n, j);
  }

  /** Whether another first child stands between a first child, at `k` in the chain, and the next tag of its name. */
  ghost predicate Between(s: seq<Tag>, f: seq<Tag>, k: nat, next: Tag)
    requires next in s && forall i :: 0 <= i < |f| ==> f[i] in s
  {
    k + 1 < |f| && At0(s, f[k + 1]) < At0(s, next)
  }

  /** With `fa` in front and `fb` behind the removed tag, the next of its name at `j` there. */
  lemma BetweenIs(a: seq<Tag>, xml: Tag, b: seq<Tag>, j: nat, f: seq<Tag>, k: nat, next: Tag)
    requires var s, fb := a + [xml] + b, Firsts(b, Names(a));
      Distinct(s) && j < |fb| && fb[j] == next && k < |f| && f[k + 1..] == Minus(fb, j) && f == Firsts(s, {})
    ensures next in a + [xml] + b
    ensures Between(a + [xml] + b, f, k, next) <==> j > 0
  {
    var fb := Firsts(b, Names(a));
    assert forall t <- b :: t !in a + [xml] by { Apart(a + [xml], b); }
    At0Behind(a + [xml], b, next);
    if k + 1 < |f| {
      var y := f[k + 1];
      assert y == Minus(fb, j)[0] == if j > 0 then fb[0] else fb[1];
      At0Behind(a + [xml], b, y);
      if j > 0 {
        FirstsAscend(b, Names(a), 0, j);
      } else {
        FirstsAscend(b, Names(a), 0, 1);
      }
    } else {
      assert |Minus(fb, j)| == 0;
    }
  }

  lemma Apart(a: seq<Tag>, b: seq<Tag>)
    requires Distinct(a + b)
    ensures forall t <- b :: t !in a
  {
    var s := a + b;
    forall t | t in b
      ensures t !in a
    {
      var j :| 0 <= j < |b| && b[j] == t;
      assert s[|a| + j] == t;
      assert forall i :: 0 <= i < |a| ==> s[i] == a[i];
    }
  }

  lemma CatMinus(fa: seq<Tag>, xml: Tag, w: seq<Tag>)
    ensures (fa + [xml] + w)[|fa|] == xml && (fa + [xml] + w)[|fa| + 1..] == w
    ensures Minus(fa + [xml] + w, |fa|) == fa + w
  {
    var f := fa + [xml] + w;
    assert f[..|fa|] == fa && f[|fa| + 1..] == w;
  }

  lemma CatReplace(fa: seq<Tag>, xml: Tag, fb: seq<Tag>)
    requires fb != []
    ensures (fa + [xml] + Minus(fb, 0))[|fa| := fb[0]] == fa + fb
  {
    var w, t := Minus(fb, 0), fa + fb;
    var g := (fa + [xml] + w)[|fa| := fb[0]];
    forall i | 0 <= i < |t|
      ensures g[i] == t[i]
    {
      if i > |fa| {
        assert w[i - |fa| - 1] == fb[i - |fa|];
      }
    }
  }

  /** Where the only tag of a list stands twice, it is the same place. */
  lemma SamePlace(f: seq<Tag>, i: nat, k: nat)
    requires Distinct(f) && i < |f| && k < |f| && f[i] == f[k]
    ensures i == k
  {
  }

  lemma CutShape(fa: seq<Tag>, xml: Tag, fb: seq<Tag>, j: nat)
    requires j < |fb|
    ensures var f, t := fa + [xml] + Minus(fb, j), fa + fb;
      if j == 0 then t == f[|fa| := fb[j]] else |fa| + 1 < |f| && t[|fa|] == f[|fa| + 1] && t[|fa| + j] == fb[j]
  {
    if j == 0 {
      CatReplace(fa, xml, fb);
    } else {
      assert Minus(fb, j)[0] == fb[0];
    }
  }

  lemma NamedFirst(a: seq<Tag>, xml: Tag, b: seq<Tag>)
    requires xml.name !in Names(a)
    ensures Named(a + [xml] + b, xml.name) == [xml] + Named(b, xml.name)
  {
    NamedNone(a, xml.name);
    NamedCat(a + [xml], b, xml.name);
    NamedTake(a, xml, xml.name);
  }

  /** What is left in the `sibling` chain `f` when its tag at `k` goes, the next of its name being `r[1]`. */
  ghost predicate CutGives(s: seq<Tag>, f: seq<Tag>, k: nat, r: seq<Tag>, t: seq<Tag>, j: nat) {
    && k < |f| && r != [] && r[0] == f[k]
    && (|r| == 1 ==> t == Minus(f, k))
    && (|r| > 1 ==>
      && r[1] in s && (forall i :: 0 <= i < |f| ==> f[i] in s) && (Between(s, f, k, r[1]) <==> j > 0)
      && if j == 0 then t == f[k := r[1]]
         else k + 1 < |f| && k + j < |t| && t[k] == f[k + 1] && t[k + j] == r[1])
  }

  /** The firsts without a tag that was one of them, at `k`; `r` is the list of its name. */
  lemma FirstsCut(a: seq<Tag>, xml: Tag, b: seq<Tag>, f: seq<Tag>, k: nat, r: seq<Tag>) returns (j: nat)
    requires var s := a + [xml] + b;
      Distinct(s) && f == Firsts(s, {}) && k < |f| && f[k] == xml && r == Named(s, xml.name)
    ensures CutGives(a + [xml] + b, f, k, r, Firsts(a + b, {}), j)
  {
    var n, fa, fb := xml.name, Firsts(a, {}), Firsts(b, Names(a));
    FirstIsNew(a, xml, b);
    FirstsNew(a, xml, b);
    FirstsDiffer(a + [xml] + b, {});
    CatMinus(fa, xml, Without(fb, n));
    SamePlace(f, |fa|, k);
    NamedFirst(a, xml, b);
    j := NextFirst(b, Names(a), n);
    if |r| > 1 {
      BetweenIs(a, xml, b, j, f, k, r[1]);
      CutShape(fa, xml, fb, j);
    }
  }

  // ----- ezxml_cut -----

  lemma MinusOrdered(s: seq<Tag>, i: nat)
    requires 0 < i < |s| && s[i - 1].ordered == At(s, i + 1)
    requires forall j {:trigger s[j].ordered} :: 0 <= j < |s| && j != i - 1 ==> s[j].ordered == At(s, j + 1)
    ensures OrderedChain(Minus(s, i))
  {
  }

  /** `while (cur->ordered != xml) cur = cur->ordered; cur->ordered = cur->ordered->ordered;` */
  method CutOrdered(xml: Tag, head: Tag, ghost s: seq<Tag>, ghost i: nat)
    requires 0 < i < |s| && s[i] == xml && head == s[0] && OrderedChain(s) && Distinct(s)
    modifies s`ordered
    ensures OrderedChain(Minus(s, i))
  {
    var cur := head;
    ghost var j: nat := 0;
    while cur.ordered != xml
      invariant j < i && cur == s[j]
      decreases i - j
    {
      assert s[j].ordered == At(s, j + 1);
      cur, j := cur.ordered, j + 1;
    }
    assert s[j].ordered == At(s, j + 1);
    assert s[i].ordered == At(s, i + 1);
    cur.ordered := xml.ordered;
    MinusOrdered(s, i);
  }

  lemma MinusNext(l: seq<Tag>, m: nat)
    requires m < |l| && (m > 0 ==> l[m - 1].next == At(l, m + 1))
    requires forall j {:trigger l[j].next} :: 0 <= j < |l| && j != m - 1 ==> l[j].next == At(l, j + 1)
    ensures NextChain(Minus(l, m))
  {
  }

  /** The list of one name, from its first tag on, without `xml`, if that is in it. */
  method CutNext(xml: Tag, first: Tag, ghost l: seq<Tag>, ghost m: nat, ghost w: seq<Tag>)
    requires l != [] && first == l[0] && NextChain(l) && Distinct(l) && xml != first
    requires m <= |l| && (if m < |l| then l[m] == xml && w == l else xml !in l && w == [])
    modifies w`next
    ensures m < |l| ==> NextChain(Minus(l, m))
  {
    var cur := first;
    ghost var j: nat := 0;
    while cur.next != null && cur.next != xml
      invariant j < |l| && cur == l[j] && j < m
      decreases |l| - j
    {
      assert l[j].next == At(l, j + 1);
      cur, j := cur.next, j + 1;
    }
    assert l[j].next == At(l, j + 1);
    if cur.next != null {
      assert l[m].next == At(l, m + 1);
      cur.next := cur.next.next;
      MinusNext(l, m);
    }
  }

  lemma ReplaceSibling(f: seq<Tag>, k: nat, next: Tag)
    requires k < |f| && (k > 0 ==> f[k - 1].sibling == next) && next.sibling == At(f, k + 1)
    requires forall j {:trigger f[j].sibling} :: 0 <= j < |f| && j != k - 1 ==> f[j].sibling == At(f, j + 1)
    ensures SiblingChain(f[k := next])
  {
  }

  lemma MinusSibling(f: seq<Tag>, k: nat)
    requires k < |f| && (k > 0 ==> f[k - 1].sibling == At(f, k + 1))
    requires forall j {:trigger f[j].sibling} :: 0 <= j < |f| && j != k - 1 ==> f[j].sibling == At(f, j + 1)
    ensures SiblingChain(Minus(f, k))
  {
  }

  /** The `sibling` chain without its tag at `k`, which the next tag of its name replaces. */
  ghost function Replaced(f: seq<Tag>, k: nat, next: Tag?): seq<Tag>
    requires k < |f|
  {
    if next == null then Minus(f, k) else f[k := next]
  }

  /** A tag that is not among the children's first name: the `sibling` chain, if it is in that, without it. */
  method CutFirst(xml: Tag, head: Tag, ghost f: seq<Tag>, ghost k: nat) returns (cur: Tag)
    requires f != [] && head == f[0] && SiblingChain(f) && Distinct(f) && 0 < k < |f| && FirstAt(f, xml.name, k)
    requires xml.next == null || (xml.next !in f && (f[k] == xml ==> xml.next.sibling == At(f, k + 1)))
    modifies f`sibling
    ensures if f[k] == xml then cur == f[k - 1] && SiblingChain(Replaced(f, k, xml.next))
            else cur == f[k] && SiblingChain(f)
  {
    cur := head;
    ghost var j: nat := 0;
    assert f[j].sibling == At(f, j + 1);
    while cur.sibling.name != xml.name
      invariant j < k && cur == f[j] && cur.sibling == f[j + 1]
      decreases k - j
    {
      cur, j := cur.sibling, j + 1;
      assert f[j].sibling == At(f, j + 1);
    }
    assert f[k].sibling == At(f, k + 1);
    if cur.sibling == xml {
      cur.sibling := if xml.next != null then xml.next else cur.sibling.sibling;
      if xml.next != null {
        ReplaceSibling(f, k, xml.next);
      } else {
        MinusSibling(f, k);
      }
    } else {
      cur := cur.sibling;
    }
  }

  /** `xml` is the `m`th of its list `r`, whose first tag is the `k`th of the `sibling` chain `f`. */
  ghost predicate Stands(xml: Tag, f: seq<Tag>, k: nat, r: seq<Tag>, m: nat) {
    && f != [] && Distinct(f) && FirstAt(f, xml.name, k) && k < |f|
    && m < |r| && r[m] == xml && r[0] == f[k] && Distinct(r)
    && forall j :: 0 < j < |r| ==> r[j] !in f
  }

  /** The other list `l` that is searched when `xml` is the first of its own. */
  ghost predicate Elsewhere(xml: Tag, f: seq<Tag>, k: nat, m: nat, l: seq<Tag>)
    reads l`next
  {
    m == 0 && 0 < k < |f| ==> l != [] && l[0] == f[k - 1] && Distinct(l) && xml !in l && NextChain(l)
  }

  /** The index without a tag that is not the first child. */
  method CutIndex(xml: Tag, head: Tag, ghost next: Tag?, ghost f: seq<Tag>, ghost k: nat,
                  ghost r: seq<Tag>, ghost m: nat, ghost l: seq<Tag>)
    requires Stands(xml, f, k, r, m) && head == f[0] && xml != head && SiblingChain(f) && NextChain(r)
    requires Elsewhere(xml, f, k, m, l) && next == xml.next && next == At(r, m + 1)
    requires m == 0 && next != null ==> next.sibling == At(f, k + 1)
    modifies f`sibling, r`next
    ensures NextChain(Minus(r, m)) && SiblingChain(if m == 0 then Replaced(f, k, next) else f)
  {
    var cur := head;
    if cur.name != xml.name {
      cur := CutFirst(xml, head, f, k);
    }
    if m == 0 {
      assert k > 0;
      MinusNext(r, 0);
    }
    CutNext(xml, cur, if m == 0 then l else r, if m == 0 then |l| else m, if m == 0 then [] else r);
  }

  /** The index without the first child. */
  lemma CutHead(xml: Tag, next: Tag?, f: seq<Tag>, r: seq<Tag>)
    requires Stands(xml, f, 0, r, 0) && SiblingChain(f) && NextChain(r) && next == At(r, 1)
    requires next != null ==> next.sibling == At(f, 1)
    ensures NextChain(Minus(r, 0)) && SiblingChain(Replaced(f, 0, next))
  {
    MinusNext(r, 0);
    if next != null {
      ReplaceSibling(f, 0, next);
    } else {
      MinusSibling(f, 0);
    }
  }

  /** `if (xml->next) xml->next->sibling = xml->sibling;` */
  method PassSibling(xml: Tag, ghost f: seq<Tag>, ghost k: nat, ghost r: seq<Tag>, ghost m: nat)
    requires Stands(xml, f, k, r, m) && SiblingChain(f) && NextChain(r)
    modifies r`sibling
    ensures SiblingChain(f) && xml.next == At(r, m + 1)
    ensures m == 0 && xml.next != null ==> xml.next.sibling == At(f, k + 1)
  {
    assert r[m].next == At(r, m + 1);
    assert f[k].sibling == At(f, k + 1);
    if xml.next != null {
      xml.next.sibling := xml.sibling;
    }
  }

  /** The tag at `i` leaves the list of children and the index. */
  method CutLinks(xml: Tag, dest: Tag, ghost s: seq<Tag>, ghost i: nat, ghost f: seq<Tag>, ghost k: nat,
                  ghost r: seq<Tag>, ghost m: nat, ghost l: seq<Tag>)
    requires i < |s| && s[i] == xml && dest.child == s[0] && f != [] && s[0] == f[0] && OrderedChain(s) && Distinct(s)
    requires Stands(xml, f, k, r, m) && SiblingChain(f) && NextChain(r) && Elsewhere(xml, f, k, m, l)
    modifies dest`child, s`ordered, f`sibling, r`sibling, r`next
    ensures dest.child == At(Minus(s, i), 0) && OrderedChain(Minus(s, i)) && NextChain(Minus(r, m))
    ensures SiblingChain(if m == 0 then Replaced(f, k, At(r, 1)) else f)
    ensures m == 0 && |r| > 1 ==> r[1].sibling == At(f, k + 1)
  {
    PassSibling(xml, f, k, r, m);
    var head := dest.child;
    if head == xml {
      assert s[0].ordered == At(s, 1);
      CutHead(xml, xml.next, f, r);
      dest.child := xml.ordered;
    } else {
      CutOrdered(xml, head, s, i);
      CutIndex(xml, head, xml.next, f, k, r, m, l);
    }
  }

  /** Where a child stands in the chains. */
  lemma CutStands(s: seq<Tag>, xml: Tag, i: nat) returns (k: nat, m: nat)
    requires Distinct(s) && i < |s| && s[i] == xml
    ensures var f, r := Firsts(s, {}), Named(s, xml.name);
      Stands(xml, f, k, r, m) && f[0] == s[0] && Named(Minus(s, i), xml.name) == Minus(r, m)
  {
    k := IndexHeads(s, xml.name);
    NamedMinus(s, i, xml.name);
    m := |Named(s[..i], xml.name)|;
    CatMinus(Named(s[..i], xml.name), xml, Named(s[i + 1..], xml.name));
    FirstsDiffer(s, {});
    RestNotFirst(Firsts(s, {}), Named(s, xml.name), xml.name, k);
  }

  lemma RestNotFirst(f: seq<Tag>, r: seq<Tag>, n: string, k: nat)
    requires Distinct(r) && k < |f| && r != [] && f[k] == r[0] && (forall i :: 0 <= i < |r| ==> r[i].name == n)
    requires forall i, j :: 0 <= i < j < |f| ==> f[i].name != f[j].name
    ensures forall j :: 0 < j < |r| ==> r[j] !in f
  {
    assert forall i :: 0 <= i < |f| && i != k ==> f[i].name != n;
  }

  /** The list in which the first of another name is looked for, in vain. */
  lemma OtherList(s: seq<Tag>, xml: Tag, k: nat, m: nat) returns (l: seq<Tag>)
    requires Distinct(s) && NextLists(s) && Stands(xml, Firsts(s, {}), k, Named(s, xml.name), m)
    ensures Elsewhere(xml, Firsts(s, {}), k, m, l)
  {
    l := [];
    if m == 0 && k > 0 {
      var first := Firsts(s, {})[k - 1];
      l := Named(s, first.name);
      FirstHeads(s, {}, first.name);
      NamedDistinct(s, first.name);
      assert NextListed(s, first.name);
    }
  }

  /** All lists by name, without the tag at `i`. */
  lemma ListsMinus(s: seq<Tag>, i: nat)
    requires i < |s| && NextListed(Minus(s, i), s[i].name)
    requires forall n :: n != s[i].name ==> NextListed(s, n)
    ensures NextLists(Minus(s, i))
  {
    forall n | n != s[i].name
      ensures NextListed(Minus(s, i), n)
    {
      NamedMinus(s, i, n);
      assert NextListed(s, n);
    }
  }

  /**
   Whether the index loses a child: `xml` is the first of its name, and another first child stands between it and the
   next one of that name.
   */
  ghost predicate Loses(s: seq<Tag>, xml: Tag)
    reads xml`next, xml`sibling
  {
    && Lookup(s, xml.name, 0) == xml && xml.next != null && xml.sibling != null
    && xml.next in s && xml.sibling in s && At0(s, xml.sibling) < At0(s, xml.next)
  }

  /** Taking a later tag of a name leaves the firsts alone. */
  lemma FirstsStay(a: seq<Tag>, xml: Tag, b: seq<Tag>, r: seq<Tag>, m: nat)
    requires r == Named(a + [xml] + b, xml.name) && Distinct(r) && 0 < m < |r| && r[m] == xml
    ensures Firsts(a + b, {}) == Firsts(a + [xml] + b, {})
  {
    if xml.name !in Names(a) {
      NamedFirst(a, xml, b);
      SamePlace(r, 0, m);
    } else {
      FirstsOld(a, xml, b);
    }
  }

  /** The stale `sibling` of the next tag of the name: the firsts cannot be a chain. */
  lemma StaleNext(t: seq<Tag>, k: nat, j: nat)
    requires k < k + j < |t| && Distinct(t) && t[k + j].sibling == t[k]
    ensures !SiblingChain(t)
  {
  }

  lemma CutFirsts(s: seq<Tag>, i: nat, f: seq<Tag>, k: nat, r: seq<Tag>, m: nat) returns (j: nat)
    requires Distinct(s) && i < |s| && f == Firsts(s, {}) && r == Named(s, s[i].name) && Stands(s[i], f, k, r, m)
    ensures m > 0 ==> Firsts(Minus(s, i), {}) == f
    ensures m == 0 ==> CutGives(s, f, k, r, Firsts(Minus(s, i), {}), j)
  {
    assert s == s[..i] + [s[i]] + s[i + 1..];
    if m > 0 {
      FirstsStay(s[..i], s[i], s[i + 1..], r, m);
      j := 0;
    } else {
      j := FirstsCut(s[..i], s[i], s[i + 1..], f, k, r);
    }
  }

  /** The tag at `i`, its places in the chains and what the chains are to be without it. */
  ghost predicate CutPlanned(s: seq<Tag>, i: nat, t: seq<Tag>, f: seq<Tag>, k: nat, r: seq<Tag>, m: nat, j: nat)
  {
    && i < |s| && t == Minus(s, i) && Distinct(s) && f == Firsts(s, {}) && r == Named(s, s[i].name)
    && Stands(s[i], f, k, r, m) && f[0] == s[0] && Named(t, s[i].name) == Minus(r, m)
    && (m > 0 ==> Firsts(t, {}) == f)
    && (m == 0 ==> CutGives(s, f, k, r, Firsts(t, {}), j))
  }

  lemma CutPlan(s: seq<Tag>, i: nat, t: seq<Tag>, f: seq<Tag>, r: seq<Tag>) returns (k: nat, m: nat, j: nat)
    requires i < |s| && t == Minus(s, i) && Distinct(s) && f == Firsts(s, {}) && r == Named(s, s[i].name)
    ensures CutPlanned(s, i, t, f, k, r, m, j)
  {
    k, m := CutStands(s, s[i], i);
    j := CutFirsts(s, i, f, k, r, m);
  }

  /** The `sibling` chain that is left lists the firsts unless a child is lost. */
  lemma CutAfter(s: seq<Tag>, i: nat, t: seq<Tag>, f: seq<Tag>, k: nat, r: seq<Tag>, m: nat, j: nat)
    requires CutPlanned(s, i, t, f, k, r, m, j)
    requires SiblingChain(if m == 0 then Replaced(f, k, At(r, 1)) else f)
    requires m == 0 && |r| > 1 ==> r[1].sibling == At(f, k + 1)
    ensures SiblingChain(Firsts(t, {})) <==> !(m == 0 && |r| > 1 && j > 0)
  {
    if m == 0 && |r| > 1 && j > 0 {
      FirstsDiffer(t, {});
      StaleNext(Firsts(t, {}), k, j);
    }
  }

  /** That is when the next tag of the name is not put in its place among the firsts. */
  lemma LosesIs(s: seq<Tag>, i: nat, t: seq<Tag>, f: seq<Tag>, k: nat, r: seq<Tag>, m: nat, j: nat)
    requires CutPlanned(s, i, t, f, k, r, m, j) && SiblingChain(f) && NextLists(s)
    ensures Loses(s, s[i]) <==> m == 0 && |r| > 1 && j > 0
  {
    LookupIs(s, s[i].name, 0);
    assert NextListed(s, s[i].name);
    assert r[m].next == At(r, m + 1);
    assert f[k].sibling == At(f, k + 1);
  }

  /** The chain that is left finds what there is of a name. */
  lemma ReplacedFinds(s: seq<Tag>, i: nat, t: seq<Tag>, f: seq<Tag>, k: nat, r: seq<Tag>, w: seq<Tag>, n: string)
    requires i < |s| && t == Minus(s, i) && Distinct(s) && f == Firsts(s, {}) && r == Named(s, s[i].name)
    requires k < |f| && r != [] && r[0] == f[k] == s[i] && Named(t, s[i].name) == Minus(r, 0)
    requires w == Replaced(f, k, At(r, 1))
    ensures Lookup(w, n, 0) == Lookup(t, n, 0)
  {
    hide Lookup, Named, Firsts, Names;
    LookupIs(w, n, 0);
    LookupIs(t, n, 0);
    if n == s[i].name {
      FirstsDiffer(s, {});
      ReplacedSame(f, k, At(r, 1));
    } else {
      SameOthers(s, i, n);
      ReplacedOther(f, k, At(r, 1), n);
      FirstsFind(s);
      LookupIs(f, n, 0);
      LookupIs(s, n, 0);
    }
  }

  lemma ReplacedSame(f: seq<Tag>, k: nat, next: Tag?)
    requires k < |f| && (next != null ==> next.name == f[k].name)
    requires forall i, j :: 0 <= i < j < |f| ==> f[i].name != f[j].name
    ensures Named(Replaced(f, k, next), f[k].name) == if next == null then [] else [next]
  {
    Around(f, k, next, f[k].name);
    NoneNamed(f[..k], f[k].name);
    NoneNamed(f[k + 1..], f[k].name);
  }

  lemma ReplacedOther(f: seq<Tag>, k: nat, next: Tag?, n: string)
    requires k < |f| && n != f[k].name && (next != null ==> next.name == f[k].name)
    ensures Named(Replaced(f, k, next), n) == Named(f, n)
  {
    Around(f, k, next, n);
    NamedMinus(f, k, n);
    SameOthers(f, k, n);
  }

  lemma SameOthers(s: seq<Tag>, i: nat, n: string)
    requires i < |s| && n != s[i].name
    ensures Named(Minus(s, i), n) == Named(s, n)
  {
    hide Named, Minus;
    NamedMinus(s, i, n);
    assert s == s[..i] + [s[i]] + s[i + 1..];
    NamedCat(s[..i] + [s[i]], s[i + 1..], n);
    NamedCat(s[..i], [s[i]], n);
    OneNamed(s[i], n);
  }

  lemma OneNamed(x: Tag, n: string)
    ensures Named([x], n) == if x.name == n then [x] else []
  {
    assert [x][1..] == [];
  }

  lemma {:induction false} NoneNamed(a: seq<Tag>, n: string)
    requires forall x <- a :: x.name != n
    ensures Named(a, n) == []
  {
    if a != [] {
      NoneNamed(a[1..], n);
    }
  }

  lemma Around(f: seq<Tag>, k: nat, next: Tag?, n: string)
    requires k < |f|
    ensures Named(Replaced(f, k, next), n)
         == Named(f[..k], n) + (if next != null && next.name == n then [next] else []) + Named(f[k + 1..], n)
  {
    if next != null {
      assert f[k := next] == f[..k] + [next] + f[k + 1..];
      NamedCat(f[..k] + [next], f[k + 1..], n);
      NamedCat(f[..k], [next], n);
      OneNamed(next, n);
    } else {
      NamedMinus(f, k, n);
    }
  }

  /** It goes through children that are left. */
  lemma WalkWithin(s: seq<Tag>, i: nat, t: seq<Tag>, f: seq<Tag>, k: nat, r: seq<Tag>, w: seq<Tag>)
    requires i < |s| && t == Minus(s, i) && Distinct(s) && f == Firsts(s, {}) && r == Named(s, s[i].name) && Distinct(f)
    requires k < |f| && r != [] && r[0] == f[k] == s[i] && w == Replaced(f, k, At(r, 1)) && Distinct(r)
    ensures forall x <- w :: x in t
  {
    forall x | x in w
      ensures x in t
    {
      assert x in s && x != s[i];
      InMinus(s, i, x);
    }
  }

  lemma InMinus(s: seq<Tag>, i: nat, x: Tag)
    requires i < |s| && x in s && x != s[i]
    ensures x in Minus(s, i)
  {
    assert s == s[..i] + [s[i]] + s[i + 1..];
  }

  /** As above, and the lists of the other names are as before. */
  method CutLists(xml: Tag, dest: Tag, ghost s: seq<Tag>, ghost i: nat, ghost f: seq<Tag>, ghost k: nat,
                  ghost r: seq<Tag>, ghost m: nat, ghost l: seq<Tag>, ghost t: seq<Tag>, ghost j: nat)
    requires CutPlanned(s, i, t, f, k, r, m, j) && s[i] == xml && dest.child == s[0] && OrderedChain(s)
    requires SiblingChain(f) && NextLists(s) && Elsewhere(xml, f, k, m, l)
    modifies dest`child, s`ordered, f`sibling, r`sibling, r`next
    ensures dest.child == At(t, 0) && OrderedChain(t) && NextLists(t)
    ensures SiblingChain(if m == 0 then Replaced(f, k, At(r, 1)) else f)
    ensures m == 0 && |r| > 1 ==> r[1].sibling == At(f, k + 1)
  {
    assert NextListed(s, xml.name);
    CutLinks(xml, dest, s, i, f, k, r, m, l);
    forall n | n != xml.name
      ensures NextListed(s, n)
    {
      NotNamed(s, n, xml.name);
    }
    ListsMinus(s, i);
  }

  /** The tag at `i` leaves the chains. */
  method CutKids(xml: Tag, dest: Tag, ghost s: seq<Tag>, ghost i: nat, ghost t: seq<Tag>) returns (ghost w: seq<Tag>)
    requires i < |s| && s[i] == xml && dest.child == s[0] && OrderedChain(s) && Distinct(s)
    requires NextLists(s) && SiblingChain(Firsts(s, {})) && t == Minus(s, i)
    modifies dest`child, s`ordered, s`sibling, s`next
    ensures dest.child == At(t, 0) && OrderedChain(t) && NextLists(t)
    ensures SiblingChain(Firsts(t, {})) <==> !old(Loses(s, xml))
    ensures SiblingChain(w) && CutShows(s, i, t, w, old(Loses(s, xml)))
  {
    ghost var f, r := Firsts(s, {}), Named(s, xml.name);
    ghost var k, m, j := CutPlan(s, i, t, f, r);
    LosesIs(s, i, t, f, k, r, m, j);
    ghost var l := OtherList(s, xml, k, m);
    CutLists(xml, dest, s, i, f, k, r, m, l, t, j);
    CutAfter(s, i, t, f, k, r, m, j);
    w := if m == 0 then Replaced(f, k, At(r, 1)) else f;
    CutShown(s, i, t, f, k, r, m, j, w);
  }

  /**
   What a walk still goes through: a tag of every name; but it begins at the first child, and behind the front of `w`
   when the first child was cut and lost the next one of its name.
   */
  ghost predicate CutShows(s: seq<Tag>, i: nat, t: seq<Tag>, w: seq<Tag>, loses: bool)
    requires i < |s|
  {
    && Finds(w, t)
    && if i == 0 && loses then
         && |w| > 1 && At(t, 0) == w[1] && w[0].name == s[0].name && forall x <- w[1..] :: x.name != s[0].name
       else At(t, 0) == At(w, 0)
  }

  lemma CutShown(s: seq<Tag>, i: nat, t: seq<Tag>, f: seq<Tag>, k: nat, r: seq<Tag>, m: nat, j: nat, w: seq<Tag>)
    requires CutPlanned(s, i, t, f, k, r, m, j) && w == if m == 0 then Replaced(f, k, At(r, 1)) else f
    ensures CutShows(s, i, t, w, m == 0 && |r| > 1 && j > 0)
  {
    WalkFinds(s, i, t, f, k, r, m, j, w);
    WalkBegins(s, i, t, f, k, r, m, j, w);
  }

  lemma WalkBegins(s: seq<Tag>, i: nat, t: seq<Tag>, f: seq<Tag>, k: nat, r: seq<Tag>, m: nat, j: nat, w: seq<Tag>)
    requires CutPlanned(s, i, t, f, k, r, m, j) && w == if m == 0 then Replaced(f, k, At(r, 1)) else f
    ensures if i == 0 && m == 0 && |r| > 1 && j > 0 then
        |w| > 1 && At(t, 0) == w[1] && w[0].name == s[0].name && forall x <- w[1..] :: x.name != s[0].name
      else At(t, 0) == At(w, 0)
  {
    hide Firsts, Named, CutGives;
    if i > 0 {
      BeginsThere(s, i, t, f, k, r, m, w);
    } else {
      FirstCut(s, t, f, k, r, m, j, w);
    }
  }

  lemma BeginsThere(s: seq<Tag>, i: nat, t: seq<Tag>, f: seq<Tag>, k: nat, r: seq<Tag>, m: nat, w: seq<Tag>)
    requires 0 < i < |s| && t == Minus(s, i) && Distinct(s) && Stands(s[i], f, k, r, m) && f[0] == s[0]
    requires w == if m == 0 then Replaced(f, k, At(r, 1)) else f
    ensures At(t, 0) == At(w, 0)
  {
    assert s[i] != s[0];
  }

  lemma FirstCut(s: seq<Tag>, t: seq<Tag>, f: seq<Tag>, k: nat, r: seq<Tag>, m: nat, j: nat, w: seq<Tag>)
    requires CutPlanned(s, 0, t, f, k, r, m, j) && w == if m == 0 then Replaced(f, k, At(r, 1)) else f
    ensures k == 0 && m == 0
    ensures if |r| > 1 && j > 0 then
        |w| > 1 && At(t, 0) == w[1] && w[0].name == s[0].name && forall x <- w[1..] :: x.name != s[0].name
      else At(t, 0) == At(w, 0)
  {
    hide Named;
    var xml := s[0];
    assert f[0].name == xml.name && k == 0;
    assert r[0] == f[0] == xml;
    FirstsDiffer(s, {});
    FirstsHead(t);
    OthersDiffer(s, f, At(r, 1));
  }

  lemma OthersDiffer(s: seq<Tag>, f: seq<Tag>, next: Tag?)
    requires f == Firsts(s, {}) && f != []
    ensures forall x <- f[1..] :: x.name != f[0].name
    ensures next != null ==> f[0 := next][1..] == f[1..]
  {
    hide Firsts;
    FirstsDiffer(s, {});
  }

  lemma FirstsHead(t: seq<Tag>)
    ensures At(Firsts(t, {}), 0) == At(t, 0)
  {
  }

  lemma WalkFinds(s: seq<Tag>, i: nat, t: seq<Tag>, f: seq<Tag>, k: nat, r: seq<Tag>, m: nat, j: nat, w: seq<Tag>)
    requires CutPlanned(s, i, t, f, k, r, m, j) && w == if m == 0 then Replaced(f, k, At(r, 1)) else f
    ensures Finds(w, t)
  {
    hide Lookup, Named, Firsts, Names;
    if m > 0 {
      FirstsFind(t);
    } else {
      forall n
        ensures Lookup(w, n, 0) == Lookup(t, n, 0)
      {
        ReplacedFinds(s, i, t, f, k, r, w, n);
      }
      WalkWithin(s, i, t, f, k, r, w);
    }
  }

  method CutKid(xml: Tag, dest: Tag, ghost s: seq<Tag>, ghost i: nat, ghost t: seq<Tag>) returns (ghost w: seq<Tag>)
    requires i < |s| && s[i] == xml && dest.child == s[0] && OrderedChain(s) && Distinct(s)
    requires NextLists(s) && SiblingChain(Firsts(s, {})) && t == Minus(s, i) && xml !in t
    modifies dest`child, dest`kids, s`ordered, s`sibling, s`next
    ensures dest.child == At(t, 0) && OrderedChain(t) && dest.kids == t && ByName(dest)
    ensures FirstOfEach(dest) <==> !old(Loses(s, xml))
    ensures xml.ordered == null && xml.sibling == null && xml.next == null
    ensures SiblingChain(w) && CutShows(s, i, t, w, old(Loses(s, xml)))
  {
    w := CutKids(xml, dest, s, i, t);
    dest.kids := t;
    ClearLinks(xml, t, Firsts(t, {}), w);
  }

  method ClearLinks(xml: Tag, ghost t: seq<Tag>, ghost f: seq<Tag>, ghost w: seq<Tag>)
    requires xml !in t && xml !in f && xml !in w && NextLists(t)
    modifies xml`ordered, xml`sibling, xml`next
    ensures xml.ordered == null && xml.sibling == null && xml.next == null
    ensures NextLists(t) && SiblingChain(f) == old(SiblingChain(f)) && OrderedChain(t) == old(OrderedChain(t))
    ensures SiblingChain(w) == old(SiblingChain(w))
  {
    xml.ordered, xml.sibling, xml.next := null, null, null;
  }

  lemma MinusInOrder(dest: Tag, s: seq<Tag>, i: nat)
    requires i < |s| && Distinct(s) && Sorted(s) && dest !in s && dest.kids == Minus(s, i)
    requires forall j {:trigger s[j].parent} :: 0 <= j < |s| ==> s[j].parent == dest
    requires dest.child == At(Minus(s, i), 0) && OrderedChain(Minus(s, i))
    ensures InOrder(dest)
  {
  }

  /** Whether the walk finds all names after a cut. */
  lemma VisibleIs(p: Tag, s: seq<Tag>, i: nat, w: seq<Tag>, loses: bool)
    requires i < |s| && p.kids == Minus(s, i) && p.child == At(p.kids, 0)
    requires SiblingChain(w) && CutShows(s, i, p.kids, w, loses)
    ensures Visible(p) <==> !(i == 0 && loses)
  {
    if i == 0 && loses {
      var n := s[0].name;
      ChainRest(w);
      NotFound(w[1..], n);
      LookupAt(w, n, 0);
      forall places: seq<nat>
        ensures !Serves(p, places)
      {
        if Serves(p, places) {
          OneWalk(Pick(p.kids, places), w[1..]);
          assert false;
        }
      }
    } else {
      SeenThrough(p, w);
    }
  }

  lemma NotFound(w: seq<Tag>, n: string)
    requires forall x <- w :: x.name != n
    ensures Lookup(w, n, 0) == null
  {
    LookupAt(w, n, |w|);
  }

  /**
   `ezxml_cut`. The other children keep their order and their lists by name; the list of firsts stays right unless
   the tag was the first of its name and the next one stands behind another first child.  Even then every name is still
   found, unless the tag was the first child of all.
   */
  method Cut(xml: Tag)
    requires xml.parent != null && Indexed(xml.parent) && xml in xml.parent.kids
    modifies xml.parent`child, xml.parent`kids
    modifies xml.parent.kids`ordered, xml.parent.kids`sibling, xml.parent.kids`next
    ensures xml.ordered == null && xml.sibling == null && xml.next == null
    ensures xml.parent.kids == old(Minus(xml.parent.kids, At0(xml.parent.kids, xml)))
    ensures InOrder(xml.parent) && ByName(xml.parent)
    ensures FirstOfEach(xml.parent) <==> !old(Loses(xml.parent.kids, xml))
    ensures Visible(xml.parent) <==> !(old(xml.parent.child) == xml && old(Loses(xml.parent.kids, xml)))
  {
    var dest := xml.parent;
    ghost var s, i, loses := dest.kids, At0(dest.kids, xml), Loses(dest.kids, xml);
    ghost var w := CutKid(xml, dest, s, i, Minus(s, i));
    MinusInOrder(dest, s, i);
    VisibleIs(dest, s, i, w, loses);
  }

  /** `ezxml_cut` of a tag that has no parent. */
  method CutRoot(xml: Tag)
    requires xml.parent == null
    modifies xml`ordered, xml`sibling, xml`next
    modifies if xml.next == null then {} else {xml.next}
    ensures xml.ordered == null && xml.sibling == null && xml.next == null
    ensures old(xml.next) != null && old(xml.next) != xml ==> old(xml.next).sibling == old(xml.sibling)
  {
    if xml.next != null {
      xml.next.sibling := xml.sibling;
    }
    xml.ordered, xml.sibling, xml.next := null, null, null;
  }

  // ----- ezxml_add_child -----

  /** A tag without children is indexed. */
  lemma Childless(p: Tag)
    requires p.kids == [] && p.child == null
    ensures Indexed(p)
  {
  }

  /** The old first child behind a new one of its name is passed over: the walk still finds every name. */
  lemma StillVisible(p: Tag, xml: Tag, s: seq<Tag>)
    requires p.kids == [xml] + s && Distinct(p.kids) && p.child == xml && SiblingChain([xml] + Firsts(s, {}))
    ensures Visible(p)
  {
    var w := [xml] + Firsts(s, {});
    assert Distinct(s) by {
      assert forall i :: 0 <= i < |s| ==> s[i] == p.kids[i + 1];
    }
    FirstsFind(s);
    assert w[1..] == Firsts(s, {}) && p.kids[1..] == s;
    forall n
      ensures Lookup(w, n, 0) == Lookup(p.kids, n, 0)
    {
    }
    SeenThrough(p, w);
  }

  /** `ezxml_add_child`: wherever the child goes, the walk of `Child` then finds the first child of every name. */
  method AddChild(dest: Tag, name: string, off: nat) returns (xml: Tag)
    requires Indexed(dest)
    modifies dest`child, dest`kids, dest.kids`ordered, dest.kids`next, dest.kids`sibling
    ensures fresh(xml) && xml.name == name && xml.off == off && InOrder(dest) && ByName(dest) && Visible(dest)
    ensures old(UpTo(dest.kids, off)) <= |old(dest.kids)|
    ensures dest.kids == Put(old(dest.kids), xml, old(UpTo(dest.kids, off)))
  {
    hide Firsts, Put, UpTo, Finds;
    xml := new Tag(name);
    ghost var s := dest.kids;
    Insert(xml, dest, off);
    if FirstOfEach(dest) {
      IndexedVisible(dest);
    } else {
      StillVisible(dest, xml, s);
    }
  }

  // ----- runs -----

  /** Appending, as the parser does: the index stays right. */
  method Append(xml: Tag, dest: Tag, off: nat)
    requires Indexed(dest) && xml != dest && xml !in dest.kids && forall t <- dest.kids :: t.off <= off
    modifies xml`off, xml`parent, xml`ordered, xml`next, xml`sibling, dest`child, dest`kids
    modifies dest.kids`ordered, dest.kids`next, dest.kids`sibling
    ensures Indexed(dest) && dest.kids == old(dest.kids) + [xml] && xml.off == off
  {
    UpToIs(dest.kids, off, |dest.kids|);
    Insert(xml, dest, off);
  }

  /** Any run of appends in the order of the offsets adds exactly these tags, fully indexed. */
  method AppendAll(dest: Tag, tags: seq<Tag>, offs: seq<nat>)
    requires Indexed(dest) && |tags| == |offs| && Distinct(dest.kids + tags) && dest !in tags
    requires forall i, j :: 0 <= i < j < |offs| ==> offs[i] <= offs[j]
    requires offs != [] ==> forall t <- dest.kids :: t.off <= offs[0]
    modifies dest`child, dest`kids, dest.kids`ordered, dest.kids`next, dest.kids`sibling
    modifies tags`off, tags`parent, tags`ordered, tags`next, tags`sibling
    ensures Indexed(dest) && dest.kids == old(dest.kids) + tags
    ensures forall i :: 0 <= i < |tags| ==> tags[i].off == offs[i]
  {
    hide Distinct, Indexed;
    var n: nat := 0;
    ghost var s := dest.kids;
    assert s + tags[..0] == s;
    while n < |tags|
      invariant n <= |tags| && Indexed(dest) && dest.kids == s + tags[..n]
      invariant n < |tags| ==> forall t <- dest.kids :: t.off <= offs[n]
      invariant forall i :: 0 <= i < n ==> tags[i].off == offs[i]
    {
      NotYet(s, tags, n);
      Append(tags[n], dest, offs[n]);
      assert s + tags[..n] + [tags[n]] == s + tags[..n + 1];
      n := n + 1;
    }
    assert tags[..n] == tags;
  }

  lemma NotYet(s: seq<Tag>, tags: seq<Tag>, n: nat)
    requires Distinct(s + tags) && n < |tags|
    ensures tags[n] !in s + tags[..n]
  {
    var all, before := s + tags, s + tags[..n];
    assert all[|s| + n] == tags[n];
    assert forall i :: 0 <= i < |before| ==> before[i] == all[i];
  }

  /** Cutting a just-appended tag restores the children and the whole index. */
  method AppendThenCut(xml: Tag, dest: Tag, off: nat)
    requires Indexed(dest) && xml != dest && xml !in dest.kids && forall t <- dest.kids :: t.off <= off
    modifies xml`off, xml`parent, xml`ordered, xml`next, xml`sibling, dest`child, dest`kids
    modifies dest.kids`ordered, dest.kids`next, dest.kids`sibling
    ensures dest.kids == old(dest.kids) && Indexed(dest)
  {
    ghost var s := dest.kids;
    Append(xml, dest, off);
    At0Behind(s, [xml], xml);
    CatMinus(s, xml, []);
    LastHasNoNext(s, xml);
    Cut(xml);
  }

  /** The last child is the last of its list. */
  lemma LastHasNoNext(s: seq<Tag>, xml: Tag)
    requires NextLists(s + [xml])
    ensures xml.next == null
  {
    NamedTake(s, xml, xml.name);
    assert NextListed(s + [xml], xml.name);
    var r := Named(s + [xml], xml.name);
    assert r[|r| - 1].next == At(r, |r|);
  }
}