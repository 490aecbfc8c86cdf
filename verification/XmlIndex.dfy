/**
 The children of an ezXML tag: one list in document order (`ordered`) and an
 index over it, the first child of every name (`sibling`) and all children of
 one name (`next`).
 */
module XmlIndex {
  import opened XmlAttr

  class Tag {
    const name: string
    var attrs: seq<Attr>
    var txt: string
    var off: nat
    var next: Tag?
    var sibling: Tag?
    var ordered: Tag?
    var child: Tag?
    var parent: Tag?
    ghost var kids: seq<Tag>    // the children in document order

    constructor (name: string)
      ensures this.name == name && off == 0 && kids == []
      ensures next == null && sibling == null && ordered == null && child == null && parent == null
      ensures attrs == [] && txt == ""
    {
      this.name := name;
      attrs, txt := [], "";
      off, next, sibling, ordered, child, parent := 0, null, null, null, null, null;
      kids := [];
    }
  }

  // ----- what the three chains list -----

  function At(s: seq<Tag>, i: nat): Tag? {
    if i < |s| then s[i] else null
  }

  /** The children called `n`. */
  function Named(s: seq<Tag>, n: string): (r: seq<Tag>)
    ensures forall i :: 0 <= i < |r| ==> r[i] in s && r[i].name == n
  {
    if s == [] then [] else (if s[0].name == n then [s[0]] else []) + Named(s[1..], n)
  }

  /** The first child of every name that is not in `seen`. */
  function Firsts(s: seq<Tag>, seen: set<string>): (r: seq<Tag>)
    ensures forall i :: 0 <= i < |r| ==> r[i] in s
  {
    if s == [] then []
    else if s[0].name in seen then Firsts(s[1..], seen)
    else [s[0]] + Firsts(s[1..], seen + {s[0].name})
  }

  function Names(s: seq<Tag>): set<string> {
    set t <- s :: t.name
  }

  predicate Distinct(s: seq<Tag>) {
    forall i, j :: 0 <= i < j < |s| ==> s[i] != s[j]
  }

  ghost predicate Sorted(s: seq<Tag>)
    reads s`off
  {
    forall i, j :: 0 <= i < j < |s| ==> s[i].off <= s[j].off
  }

  ghost predicate OrderedChain(s: seq<Tag>)
    reads s`ordered
  {
    forall i {:trigger s[i].ordered} :: 0 <= i < |s| ==> s[i].ordered == At(s, i + 1)
  }

  ghost predicate NextChain(s: seq<Tag>)
    reads s`next
  {
    forall i {:trigger s[i].next} :: 0 <= i < |s| ==> s[i].next == At(s, i + 1)
  }

  ghost predicate NextListed(s: seq<Tag>, n: string)
    reads Named(s, n)`next
  {
    NextChain(Named(s, n))
  }

  ghost predicate SiblingChain(s: seq<Tag>)
    reads s`sibling
  {
    forall i {:trigger s[i].sibling} :: 0 <= i < |s| ==> s[i].sibling == At(s, i + 1)
  }

  /** Document order, by offset. */
  ghost predicate InOrder(p: Tag)
    reads p`child, p`kids, p.kids`ordered, p.kids`off, p.kids`parent
  {
    && p !in p.kids && Distinct(p.kids) && Sorted(p.kids)
    && (forall t <- p.kids :: t.parent == p)
    && p.child == At(p.kids, 0) && OrderedChain(p.kids)
  }

  ghost predicate NextLists(s: seq<Tag>)
    reads s`next
  {
    forall n :: NextListed(s, n)
  }

  /** For every name, `next` lists the children of that name. */
  ghost predicate ByName(p: Tag)
    reads p`kids, p.kids`next
  {
    NextLists(p.kids)
  }

  /** From the first child on, `sibling` lists the first child of every name. */
  ghost predicate FirstOfEach(p: Tag)
    reads p`kids, p.kids`sibling
  {
    SiblingChain(Firsts(p.kids, {}))
  }

  /** All three chains agree. */
  ghost predicate Indexed(p: Tag)
    reads p`child, p`kids, p.kids`ordered, p.kids`off, p.kids`parent, p.kids`next, p.kids`sibling
  {
    InOrder(p) && ByName(p) && FirstOfEach(p)
  }

  // ----- sequences -----

  lemma {:induction false} NamedCat(a: seq<Tag>, b: seq<Tag>, n: string)
    ensures Named(a + b, n) == Named(a, n) + Named(b, n)
  {
    if a == [] {
      assert a + b == b;
    } else {
      assert (a + b)[1..] == a[1..] + b;
      NamedCat(a[1..], b, n);
    }
  }

  lemma {:induction false} FirstsCat(a: seq<Tag>, b: seq<Tag>, seen: set<string>)
    ensures Firsts(a + b, seen) == Firsts(a, seen) + Firsts(b, seen + Names(a))
  {
    if a == [] {
      assert a + b == b;
      assert seen + Names(a) == seen;
    } else {
      var n := a[0].name;
      var seen' := if n in seen then seen else seen + {n};
      assert (a + b)[1..] == a[1..] + b;
      FirstsCat(a[1..], b, seen');
      NamesCons(a);
      assert seen' + Names(a[1..]) == seen + Names(a);
    }
  }

  lemma NamedSplit(s: seq<Tag>, p: nat, n: string)
    requires p <= |s|
    ensures Named(s, n) == Named(s[..p], n) + Named(s[p..], n)
  {
    assert s == s[..p] + s[p..];
    NamedCat(s[..p], s[p..], n);
  }

  lemma NamesCons(a: seq<Tag>)
    requires a != []
    ensures Names(a) == {a[0].name} + Names(a[1..])
  {
  }

  /** The sibling chain has every name once, and none already seen. */
  lemma {:induction false} FirstsDiffer(s: seq<Tag>, seen: set<string>)
    ensures var f := Firsts(s, seen);
      && (forall t <- f :: t.name !in seen)
      && (forall i, j :: 0 <= i < j < |f| ==> f[i].name != f[j].name)
  {
    if s != [] {
      FirstsDiffer(s[1..], if s[0].name in seen then seen else seen + {s[0].name});
    }
  }

  /** Every name not seen before has its first tag there. */
  lemma {:induction false} FirstsCover(s: seq<Tag>, seen: set<string>, n: string)
    requires n !in seen && n in Names(s)
    ensures n in Names(Firsts(s, seen))
  {
    if s[0].name == n {
      assert s[0] in Firsts(s, seen);
    } else {
      NamesCons(s);
      FirstsCover(s[1..], if s[0].name in seen then seen else seen + {s[0].name}, n);
      var t :| t in Firsts(s[1..], if s[0].name in seen then seen else seen + {s[0].name}) && t.name == n;
      assert t in Firsts(s, seen);
    }
  }

  /** With one more name seen, the first tag of that name drops out. */
  function Without(s: seq<Tag>, n: string): seq<Tag> {
    if s == [] then [] else if s[0].name == n then s[1..] else [s[0]] + Without(s[1..], n)
  }

  lemma {:induction false} FirstsSeen(s: seq<Tag>, seen: set<string>, n: string)
    ensures Firsts(s, seen + {n}) == Without(Firsts(s, seen), n)
  {
    if s != [] {
      if n in seen {
        assert seen + {n} == seen;
        FirstsDiffer(s, seen);
        WithoutNone(Firsts(s, seen), n);
      } else if s[0].name in seen {
        FirstsSeen(s[1..], seen, n);
      } else if s[0].name == n {
        assert Firsts(s, seen)[1..] == Firsts(s[1..], seen + {n});
      } else {
        FirstsSeen(s[1..], seen + {s[0].name}, n);
        assert seen + {n} + {s[0].name} == seen + {s[0].name} + {n};
        assert Firsts(s, seen)[1..] == Firsts(s[1..], seen + {s[0].name});
      }
    }
  }

  lemma {:induction false} WithoutNone(s: seq<Tag>, n: string)
    requires forall t <- s :: t.name != n
    ensures Without(s, n) == s
  {
    if s != [] {
      WithoutNone(s[1..], n);
    }
  }

  // ----- ezxml_insert -----

  /** How many tags at the front of `s` are not behind `off`. */
  ghost function UpTo(s: seq<Tag>, off: nat): (p: nat)
    reads s`off
    ensures p <= |s|
    ensures forall i :: 0 <= i < p ==> s[i].off <= off
    ensures p < |s| ==> s[p].off > off
  {
    if s == [] || s[0].off > off then 0 else 1 + UpTo(s[1..], off)
  }

  function Put(s: seq<Tag>, x: Tag, p: nat): (r: seq<Tag>)
    requires p <= |s|
    ensures |r| == |s| + 1 && r[p] == x
    ensures forall i :: 0 <= i < p ==> r[i] == s[i]
    ensures forall i :: p < i < |r| ==> r[i] == s[i - 1]
  {
    s[..p] + [x] + s[p..]
  }

  /** A list that agrees with the bound up to `q` and exceeds it from there has `q` tags up to it. */
  lemma UpToIs(s: seq<Tag>, off: nat, q: nat)
    requires q <= |s| && (forall i :: 0 <= i < q ==> s[i].off <= off) && (q < |s| ==> s[q].off > off)
    ensures UpTo(s, off) == q
  {
  }

  lemma UpToCat(a: seq<Tag>, b: seq<Tag>, off: nat)
    requires (forall i :: 0 <= i < |a| ==> a[i].off <= off) && (b != [] ==> b[0].off > off)
    ensures UpTo(a + b, off) == |a|
  {
    UpToIs(a + b, off, |a|);
  }

  /** `for (cur = head; cur->ordered && cur->ordered->off <= off; cur = cur->ordered);` */
  method LastOrdered(head: Tag, off: nat, ghost s: seq<Tag>) returns (cur: Tag)
    requires s != [] && head == s[0] && head.off <= off && OrderedChain(s)
    ensures UpTo(s, off) > 0 && cur == s[UpTo(s, off) - 1]
  {
    cur := head;
    ghost var i: nat := 0;
    while cur.ordered != null && cur.ordered.off <= off
      invariant i < |s| && cur == s[i]
      invariant forall j :: 0 <= j <= i ==> s[j].off <= off
      decreases |s| - i
    {
      assert s[i].ordered == At(s, i + 1);
      cur, i := cur.ordered, i + 1;
    }
    assert s[i].ordered == At(s, i + 1);
    UpToIs(s, off, i + 1);
  }

  lemma PutOrdered(s: seq<Tag>, xml: Tag, p: nat)
    requires p <= |s| && xml.ordered == At(s, p) && (p > 0 ==> s[p - 1].ordered == xml)
    requires forall i {:trigger s[i].ordered} :: 0 <= i < |s| && i != p - 1 ==> s[i].ordered == At(s, i + 1)
    ensures OrderedChain(Put(s, xml, p))
  {
  }

  method LinkOrdered(xml: Tag, head: Tag, dest: Tag, off: nat, ghost s: seq<Tag>, ghost p: nat)
    requires s != [] && head == s[0] && head == dest.child && Distinct(s) && xml !in s && OrderedChain(s)
    requires p == UpTo(s, off)
    modifies dest`child, s`ordered, xml`ordered
    ensures dest.child == if p == 0 then xml else head
    ensures OrderedChain(Put(s, xml, p))
  {
    if head.off <= off {
      var cur := LastOrdered(head, off, s);
      assert cur.ordered == At(s, p);
      xml.ordered := cur.ordered;
      cur.ordered := xml;
    } else {
      xml.ordered := head;
      dest.child := xml;
    }
    PutOrdered(s, xml, p);
  }

  /** `for (cur = head, prev = NULL; cur && strcmp(cur->name, xml->name); prev = cur, cur = cur->sibling);` */
  method FindType(head: Tag, name: string, ghost f: seq<Tag>) returns (prev: Tag?, cur: Tag?, ghost k: nat)
    requires f != [] && head == f[0] && SiblingChain(f)
    ensures k <= |f| && cur == At(f, k) && prev == (if k == 0 then null else f[k - 1])
    ensures (forall i :: 0 <= i < k ==> f[i].name != name) && (k < |f| ==> f[k].name == name)
  {
    prev, cur, k := null, head, 0;
    while cur != null && cur.name != name
      invariant k <= |f| && cur == At(f, k) && prev == (if k == 0 then null else f[k - 1])
      invariant forall i :: 0 <= i < k ==> f[i].name != name
      decreases |f| - k
    {
      assert f[k].sibling == At(f, k + 1);
      prev, cur, k := cur, cur.sibling, k + 1;
    }
  }

  /** The first tag of a name in the sibling chain heads the list of that name. */
  lemma {:induction false} FirstHeads(s: seq<Tag>, seen: set<string>, n: string)
    requires n !in seen
    ensures forall t <- Firsts(s, seen) :: t.name == n ==> Named(s, n) != [] && Named(s, n)[0] == t
    ensures Named(s, n) != [] ==> Named(s, n)[0] in Firsts(s, seen)
  {
    if s != [] {
      var m := s[0].name;
      if m == n {
        FirstsDiffer(s[1..], seen + {n});
      } else {
        FirstHeads(s[1..], if m in seen then seen else seen + {m}, n);
      }
    }
  }

  /** The part of a name's list that is not behind `off`. */
  lemma NamedUpTo(s: seq<Tag>, off: nat, n: string)
    requires Sorted(s)
    ensures var p := UpTo(s, off);
      && Named(s, n) == Named(s[..p], n) + Named(s[p..], n)
      && UpTo(Named(s, n), off) == |Named(s[..p], n)|
  {
    var p := UpTo(s, off);
    NamedSplit(s, p, n);
    var a, b := Named(s[..p], n), Named(s[p..], n);
    assert forall t <- s[..p] :: t.off <= off;
    if b != [] {
      assert b[0] in s[p..];
    }
    UpToCat(a, b, off);
  }

  /** A tag of another name behind `a` does not show. */
  lemma NamedSkip(a: seq<Tag>, xml: Tag, n: string)
    requires n != xml.name
    ensures Named(a + [xml], n) == Named(a, n)
  {
    NamedCat(a, [xml], n);
    NamedOne(xml, n);
  }

  lemma NamedTake(a: seq<Tag>, xml: Tag, n: string)
    requires n == xml.name
    ensures Named(a + [xml], n) == Named(a, n) + [xml]
  {
    NamedCat(a, [xml], n);
    NamedOne(xml, n);
  }

  lemma NamedOne(xml: Tag, n: string)
    ensures Named([xml], n) == if n == xml.name then [xml] else []
  {
    assert [xml][1..] == [];
  }

  lemma PutCat(a: seq<Tag>, x: Tag, b: seq<Tag>)
    ensures Put(a + b, x, |a|) == a + [x] + b
  {
    assert (a + b)[..|a|] == a && (a + b)[|a|..] == b;
  }

  /** Putting a tag in its place leaves the lists of other names alone ... */
  lemma NamedOther(s: seq<Tag>, xml: Tag, p: nat, n: string)
    requires p <= |s| && n != xml.name
    ensures Named(Put(s, xml, p), n) == Named(s, n)
  {
    NamedSplit(s, p, n);
    NamedSkip(s[..p], xml, n);
    NamedCat(s[..p] + [xml], s[p..], n);
  }

  /** ... and puts it in its place among the tags of its own. */
  lemma NamedInserted(s: seq<Tag>, xml: Tag, off: nat)
    requires Sorted(s)
    ensures Named(Put(s, xml, UpTo(s, off)), xml.name)
         == Put(Named(s, xml.name), xml, UpTo(Named(s, xml.name), off))
  {
    var p := UpTo(s, off);
    NamedUpTo(s, off, xml.name);
    NamedTake(s[..p], xml, xml.name);
    NamedCat(s[..p] + [xml], s[p..], xml.name);
    PutCat(Named(s[..p], xml.name), xml, Named(s[p..], xml.name));
  }

  /** `while (cur->next && cur->next->off <= off) cur = cur->next;` */
  method LastNamed(first: Tag, off: nat, ghost r: seq<Tag>) returns (cur: Tag)
    requires r != [] && first == r[0] && first.off <= off && NextChain(r)
    ensures UpTo(r, off) > 0 && cur == r[UpTo(r, off) - 1]
  {
    cur := first;
    ghost var i: nat := 0;
    while cur.next != null && cur.next.off <= off
      invariant i < |r| && cur == r[i]
      invariant forall j :: 0 <= j <= i ==> r[j].off <= off
      decreases |r| - i
    {
      assert r[i].next == At(r, i + 1);
      cur, i := cur.next, i + 1;
    }
    assert r[i].next == At(r, i + 1);
    UpToIs(r, off, i + 1);
  }

  lemma PutNext(r: seq<Tag>, xml: Tag, p: nat)
    requires p <= |r| && xml.next == At(r, p) && (p > 0 ==> r[p - 1].next == xml)
    requires forall i {:trigger r[i].next} :: 0 <= i < |r| && i != p - 1 ==> r[i].next == At(r, i + 1)
    ensures NextChain(Put(r, xml, p))
  {
  }

  /** The insertion behind tags of the same name, the first of which is `first`. */
  method LinkNamed(xml: Tag, first: Tag, off: nat, ghost r: seq<Tag>, ghost p: nat)
    requires NextChain(r) && Distinct(r) && xml !in r && r != [] && first == r[0] && first.off <= off
    requires p == UpTo(r, off)
    modifies r`next, xml`next
    ensures NextChain(Put(r, xml, p))
  {
    var cur := LastNamed(first, off, r);
    assert cur.next == At(r, p);
    xml.next := cur.next;
    cur.next := xml;
    PutNext(r, xml, p);
  }

  function Minus(f: seq<Tag>, k: nat): (r: seq<Tag>)
    requires k < |f|
    ensures |r| == |f| - 1
    ensures forall i :: 0 <= i < k ==> r[i] == f[i]
    ensures forall i :: k <= i < |r| ==> r[i] == f[i + 1]
  {
    f[..k] + f[k + 1..]
  }

  /** `for (cur = head, prev = NULL; cur && cur->off <= off; prev = cur, cur = cur->sibling);` */
  method FindPlace(head: Tag, off: nat, ghost w: seq<Tag>, ghost u: nat) returns (prev: Tag?, cur: Tag?)
    requires w != [] && head == w[0] && SiblingChain(w) && u == UpTo(w, off)
    ensures cur == At(w, u) && prev == if u == 0 then null else w[u - 1]
  {
    prev, cur := null, head;
    ghost var k: nat := 0;
    while cur != null && cur.off <= off
      invariant k <= |w| && cur == At(w, k) && prev == (if k == 0 then null else w[k - 1])
      invariant forall i :: 0 <= i < k ==> w[i].off <= off
      decreases |w| - k
    {
      assert w[k].sibling == At(w, k + 1);
      prev, cur, k := cur, cur.sibling, k + 1;
    }
    UpToIs(w, off, k);
  }

  lemma PutSibling(w: seq<Tag>, xml: Tag, u: nat)
    requires u <= |w| && xml.sibling == At(w, u) && (u > 0 ==> w[u - 1].sibling == xml)
    requires forall i {:trigger w[i].sibling} :: 0 <= i < |w| && i != u - 1 ==> w[i].sibling == At(w, i + 1)
    ensures SiblingChain(Put(w, xml, u))
  {
  }

  /** The old first tag of a name leaves the `sibling` chain, unless it is its head. */
  method DropFirst(prev: Tag?, cur: Tag?, ghost f: seq<Tag>, ghost k: nat, ghost w: seq<Tag>)
    requires SiblingChain(f) && Distinct(f) && k <= |f| && Dropped(f, k, w)
    requires cur == At(f, k) && prev == if k == 0 then null else f[k - 1]
    modifies f`sibling
    ensures SiblingChain(w)
  {
    if prev != null && cur != null {
      assert f[k].sibling == At(f, k + 1);
      prev.sibling := cur.sibling;
    }
  }

  /** The `sibling` chain without its tag at `k`, unless that is the head. */
  ghost predicate Dropped(f: seq<Tag>, k: nat, w: seq<Tag>) {
    w == if 0 < k < |f| then Minus(f, k) else f
  }

  lemma DropKeeps(f: seq<Tag>, k: nat, w: seq<Tag>)
    requires f != [] && Distinct(f) && Dropped(f, k, w)
    ensures Distinct(w) && w != [] && w[0] == f[0]
    ensures Among(w, f)
  {
  }

  ghost predicate Among(w: seq<Tag>, f: seq<Tag>) {
    forall i :: 0 <= i < |w| ==> w[i] in f
  }

  /** A new first tag of its name enters the `sibling` chain, whose tags are among `f`. */
  method PutFirst(xml: Tag, first: Tag?, head: Tag, off: nat, ghost w: seq<Tag>, ghost u: nat, ghost f: seq<Tag>)
    requires SiblingChain(w) && Distinct(w) && w != [] && head == w[0] && u == UpTo(w, off)
    requires xml !in f && Among(w, f)
    modifies f`sibling, xml`next, xml`sibling
    ensures SiblingChain(Put(w, xml, u)) && xml.next == first
  {
    xml.next := first;
    var prev, cur := FindPlace(head, off, w, u);
    xml.sibling := cur;
    if prev != null {
      prev.sibling := xml;
    }
    PutSibling(w, xml, u);
  }

  /** A name seen before leaves the firsts alone. */
  lemma FirstsOld(a: seq<Tag>, xml: Tag, b: seq<Tag>)
    requires xml.name in Names(a)
    ensures Firsts(a + [xml] + b, {}) == Firsts(a + b, {})
  {
    FirstsCat(a + [xml], b, {});
    FirstsCat(a, [xml], {});
    FirstsCat(a, b, {});
    NamesCat(a, xml);
    assert {} + Names(a) == Names(a) && Names(a) + {xml.name} == Names(a);
    assert Firsts([xml], Names(a)) == [];
    assert Firsts(a, {}) + [] == Firsts(a, {});
  }

  lemma NamesCat(a: seq<Tag>, xml: Tag)
    ensures Names(a + [xml]) == Names(a) + {xml.name}
  {
    assert forall t <- a :: t in a + [xml];
    assert xml in a + [xml];
  }

  /** A name not seen before adds its tag and removes the old first of that name. */
  lemma FirstsNew(a: seq<Tag>, xml: Tag, b: seq<Tag>)
    requires xml.name !in Names(a)
    ensures Firsts(a + [xml] + b, {}) == Firsts(a, {}) + [xml] + Without(Firsts(b, Names(a)), xml.name)
    ensures Firsts(a + b, {}) == Firsts(a, {}) + Firsts(b, Names(a))
    ensures Without(Firsts(a + b, {}), xml.name) == Firsts(a, {}) + Without(Firsts(b, Names(a)), xml.name)
  {
    hide *;
    var fa, fb := Firsts(a, {}), Firsts(b, Names(a));
    NewFirst(a, xml, b);
    EmptyAnd(Names(a));
    FirstsCat(a, b, {});
    NoneOfFirsts(a, xml.name);
    WithoutCat(fa, fb, xml.name);
  }

  lemma EmptyAnd(names: set<string>)
    ensures {} + names == names
  {
  }

  lemma NoneOfFirsts(a: seq<Tag>, n: string)
    requires n !in Names(a)
    ensures forall t <- Firsts(a, {}) :: t.name != n
  {
    assert forall t <- Firsts(a, {}) :: t.name in Names(a);
  }

  lemma NewFirst(a: seq<Tag>, xml: Tag, b: seq<Tag>)
    requires xml.name !in Names(a)
    ensures Firsts(a + [xml] + b, {}) == Firsts(a, {}) + [xml] + Without(Firsts(b, Names(a)), xml.name)
  {
    hide Names, Without;
    FirstsCat(a + [xml], b, {});
    FirstsCat(a, [xml], {});
    NamesCat(a, xml);
    EmptyAnd(Names(a));
    EmptyAnd(Names(a + [xml]));
    assert Firsts([xml], Names(a)) == [xml] + Firsts([xml][1..], Names(a) + {xml.name});
    FirstsSeen(b, Names(a), xml.name);
  }

  lemma {:induction false} WithoutCat(a: seq<Tag>, b: seq<Tag>, n: string)
    requires forall t <- a :: t.name != n
    ensures Without(a + b, n) == a + Without(b, n)
  {
    if a == [] {
      assert a + b == b && a + Without(b, n) == Without(b, n);
    } else {
      assert (a + b)[1..] == a[1..] + b;
      WithoutCat(a[1..], b, n);
    }
  }

  /** Removing by name is removing the first tag of that name. */
  lemma {:induction false} WithoutIs(f: seq<Tag>, n: string, k: nat)
    requires k <= |f| && (forall i :: 0 <= i < k ==> f[i].name != n) && (k < |f| ==> f[k].name == n)
    ensures Without(f, n) == if k < |f| then Minus(f, k) else f
  {
    if k == |f| {
      WithoutNone(f, n);
    } else if k > 0 {
      WithoutIs(f[1..], n, k - 1);
    }
  }

  lemma {:induction false} WithoutIn(f: seq<Tag>, n: string)
    ensures forall t <- Without(f, n) :: t in f
  {
    if f != [] && f[0].name != n {
      WithoutIn(f[1..], n);
    }
  }

  lemma FirstsUpTo(a: seq<Tag>, b: seq<Tag>, n: string, off: nat)
    requires forall i :: 0 <= i < |a| ==> a[i].off <= off
    requires forall i :: 0 <= i < |b| ==> b[i].off > off
    ensures UpTo(Firsts(a, {}) + Without(Firsts(b, Names(a)), n), off) == |Firsts(a, {})|
  {
    var fa, fb := Firsts(a, {}), Without(Firsts(b, Names(a)), n);
    assert forall t <- a :: t.off <= off;
    if fb != [] {
      WithoutIn(Firsts(b, Names(a)), n);
      assert fb[0] in b;
    }
    UpToCat(fa, fb, off);
  }

  lemma FirstsPut(a: seq<Tag>, xml: Tag, b: seq<Tag>, off: nat)
    requires forall i :: 0 <= i < |a| ==> a[i].off <= off
    requires forall i :: 0 <= i < |b| ==> b[i].off > off
    requires xml.name !in Names(a)
    ensures var w := Without(Firsts(a + b, {}), xml.name);
      Firsts(a + [xml] + b, {}) == Put(w, xml, UpTo(w, off))
  {
    FirstsNew(a, xml, b);
    PutCat(Firsts(a, {}), xml, Without(Firsts(b, Names(a)), xml.name));
    FirstsUpTo(a, b, xml.name, off);
  }

  /** The firsts after an insertion in front of all tags of that name. */
  lemma FirstsInserted(s: seq<Tag>, xml: Tag, off: nat)
    requires Sorted(s) && xml.name !in Names(s[..UpTo(s, off)])
    ensures var w := Without(Firsts(s, {}), xml.name);
      Firsts(Put(s, xml, UpTo(s, off)), {}) == Put(w, xml, UpTo(w, off))
  {
    var p := UpTo(s, off);
    assert s == s[..p] + s[p..];
    FirstsPut(s[..p], xml, s[p..], off);
  }

  lemma InFront(s: seq<Tag>, off: nat, t: Tag)
    requires Sorted(s) && t in s && t.off <= off
    ensures t in s[..UpTo(s, off)]
  {
    var p, i := UpTo(s, off), At0(s, t);
    assert forall j :: p <= j < |s| ==> s[j].off > off;
    assert s[..p][i] == t;
  }

  function At0(s: seq<Tag>, t: Tag): (i: nat)
    requires t in s
    ensures i < |s| && s[i] == t
  {
    if s[0] == t then 0 else 1 + At0(s[1..], t)
  }

  /** The first tag of a name comes first among the tags in front, too. */
  lemma FirstInFront(a: seq<Tag>, b: seq<Tag>, first: Tag)
    requires first in Firsts(a + b, {}) && first.name in Names(a)
    ensures first in a
  {
    FirstsCat(a, b, {});
    FirstsCover(a, {}, first.name);
    var t :| t in Firsts(a, {}) && t.name == first.name;
    assert t in Firsts(a + b, {});
    FirstsDiffer(a + b, {});
    assert t == first;
  }

  /** The first tag of a name is up to `off` exactly when the name occurs up to there. */
  lemma FirstUpTo(s: seq<Tag>, off: nat, first: Tag)
    requires Sorted(s) && first in Firsts(s, {})
    ensures first.off <= off <==> first.name in Names(s[..UpTo(s, off)])
  {
    var p := UpTo(s, off);
    if first.off <= off {
      InFront(s, off, first);
    }
    if first.name in Names(s[..p]) {
      assert s == s[..p] + s[p..];
      FirstInFront(s[..p], s[p..], first);
    }
  }

  /** The insertion in front of all tags of that name, the first of which is `cur`. */
  method LinkFirst(xml: Tag, head: Tag, off: nat, prev: Tag?, cur: Tag?,
                   ghost f: seq<Tag>, ghost k: nat, ghost w: seq<Tag>, ghost u: nat)
    requires f != [] && head == f[0] && SiblingChain(f) && Distinct(f) && xml !in f
    requires k <= |f| && cur == At(f, k) && prev == if k == 0 then null else f[k - 1]
    requires Dropped(f, k, w) && u == UpTo(w, off)
    modifies f`sibling, xml`next, xml`sibling
    ensures SiblingChain(Put(w, xml, u)) && xml.next == cur
  {
    DropKeeps(f, k, w);
    DropFirst(prev, cur, f, k, w);
    PutFirst(xml, cur, head, off, w, u, f);
  }

  /** `k` is where the first tag of that name stands in the chain, its end if there is none. */
  predicate FirstAt(f: seq<Tag>, n: string, k: nat) {
    k <= |f| && (forall i :: 0 <= i < k ==> f[i].name != n) && (k < |f| ==> f[k].name == n)
  }

  /**
   The part of the insertion that keeps the index, once the tag of that name has been looked for in the `sibling`
   chain `f`; `r` is the list of the name, `o` the firsts of the other names, `p` and `u` the places of the new tag
   in these two.
   */
  method LinkFound(xml: Tag, head: Tag, off: nat, prev: Tag?, cur: Tag?, ghost f: seq<Tag>, ghost k: nat,
                   ghost r: seq<Tag>, ghost p: nat, ghost o: seq<Tag>, ghost u: nat) returns (ghost g: seq<Tag>)
    requires f != [] && head == f[0] && SiblingChain(f) && Distinct(f) && xml !in f
    requires k <= |f| && cur == At(f, k) && prev == if k == 0 then null else f[k - 1]
    requires NextChain(r) && Distinct(r) && xml !in r && p == UpTo(r, off) && cur == At(r, 0)
    requires Dropped(f, k, o) && u == UpTo(o, off)
    modifies f`sibling, r`next, xml`next, xml`sibling
    ensures NextChain(Put(r, xml, p)) && SiblingChain(g) && g == if p > 0 then f else Put(o, xml, u)
  {
    if cur != null && cur.off <= off {
      LinkNamed(xml, cur, off, r, p);
      g := f;
    } else {
      LinkFirst(xml, head, off, prev, cur, f, k, o, u);
      g := Put(o, xml, u);
      PutNext(r, xml, 0);
    }
  }

  lemma {:induction false} NamedDistinct(s: seq<Tag>, n: string)
    requires Distinct(s)
    ensures Distinct(Named(s, n))
  {
    if s != [] {
      NamedDistinct(s[1..], n);
    }
  }

  /** Whether a tag of that name comes before the place of the new one. */
  lemma NameUpTo(s: seq<Tag>, off: nat, n: string)
    requires Sorted(s)
    ensures UpTo(Named(s, n), off) > 0 <==> n in Names(s[..UpTo(s, off)])
  {
    var r := Named(s, n);
    FirstHeads(s, {}, n);
    if r != [] {
      FirstUpTo(s, off, r[0]);
    }
    if n in Names(s[..UpTo(s, off)]) {
      var t :| t in s[..UpTo(s, off)] && t.name == n;
      NamedIn(s, t);
    }
  }

  lemma FirstsSame(s: seq<Tag>, xml: Tag, p: nat)
    requires p <= |s| && xml.name in Names(s[..p])
    ensures Firsts(Put(s, xml, p), {}) == Firsts(s, {})
  {
    FirstsOld(s[..p], xml, s[p..]);
    assert s[..p] + s[p..] == s;
  }

  /** The two index chains after the insertion. */
  lemma IndexInserted(s: seq<Tag>, xml: Tag, off: nat)
    requires Sorted(s)
    ensures var r, o, t := Named(s, xml.name), Without(Firsts(s, {}), xml.name), Put(s, xml, UpTo(s, off));
      && Named(t, xml.name) == Put(r, xml, UpTo(r, off))
      && Firsts(t, {}) == if UpTo(r, off) > 0 then Firsts(s, {}) else Put(o, xml, UpTo(o, off))
  {
    NamedInserted(s, xml, off);
    NameUpTo(s, off, xml.name);
    if UpTo(Named(s, xml.name), off) > 0 {
      FirstsSame(s, xml, UpTo(s, off));
    } else {
      FirstsInserted(s, xml, off);
    }
  }

  lemma {:induction false} NamedIn(s: seq<Tag>, t: Tag)
    requires t in s
    ensures t in Named(s, t.name)
  {
    if s[0] != t {
      NamedIn(s[1..], t);
    }
  }

  /** What the insertion finds: the first tag of a name in the `sibling` chain heads the list of that name. */
  lemma IndexHeads(s: seq<Tag>, n: string) returns (k: nat)
    requires Distinct(s) && s != []
    ensures var f, r := Firsts(s, {}), Named(s, n);
      && f != [] && f[0] == s[0] && Distinct(f) && Distinct(r)
      && FirstAt(f, n, k) && At(f, k) == At(r, 0)
      && Without(f, n) == if k < |f| then Minus(f, k) else f
  {
    var f, r := Firsts(s, {}), Named(s, n);
    FirstsDiffer(s, {});
    NamedDistinct(s, n);
    FirstHeads(s, {}, n);
    if r == [] {
      k := |f|;
    } else {
      k :| 0 <= k < |f| && f[k] == r[0];
    }
    WithoutIs(f, n, k);
  }

  /** `xml` goes into the children `s` at `q`, which gives `t`. */
  ghost predicate Goes(s: seq<Tag>, xml: Tag, off: nat, q: nat, t: seq<Tag>)
    reads s`off
  {
    Distinct(s) && Sorted(s) && xml !in s && q == UpTo(s, off) && t == Put(s, xml, q)
  }

  /** The list of children after the insertion. */
  ghost predicate Linked(xml: Tag, dest: Tag, off: nat, s: seq<Tag>, q: nat, t: seq<Tag>)
    reads xml`off, xml`parent, dest`child, t`ordered
  {
    xml.off == off && xml.parent == dest && dest.child == (if q == 0 then xml else At(s, 0)) && OrderedChain(t)
  }

  lemma PutInOrder(s: seq<Tag>, xml: Tag, off: nat)
    requires Distinct(s) && Sorted(s) && xml !in s && xml.off == off
    ensures Distinct(Put(s, xml, UpTo(s, off))) && Sorted(Put(s, xml, UpTo(s, off)))
  {
  }

  /** The lists of all other names are as before. */
  lemma OtherNames(s: seq<Tag>, xml: Tag, q: nat)
    requires q <= |s| && NextListed(Put(s, xml, q), xml.name)
    requires forall n :: n != xml.name ==> NextListed(s, n)
    ensures NextLists(Put(s, xml, q))
  {
    forall n | n != xml.name
      ensures NextListed(Put(s, xml, q), n)
    {
      NamedOther(s, xml, q, n);
      assert NextListed(s, n);
    }
  }

  /** The old head, left in the `sibling` chain behind a new head of the same name, is not where the index wants it. */
  lemma StaleHead(t: seq<Tag>, xml: Tag, head: Tag)
    requires t != [] && t[0] == xml && xml.sibling == head && head.name == xml.name
    ensures !SiblingChain(Firsts(t, {}))
  {
    FirstsDiffer(t, {});
    assert Firsts(t, {})[0] == xml;
  }

  /**
   Where the new tag goes: `f` is the `sibling` chain, which has the first tag of that name at `k`, `r` the list of
   that name and `o` the firsts of the other names; `p` and `u` are the places in these two.
   */
  ghost predicate Planned(xml: Tag, off: nat, f: seq<Tag>, k: nat, r: seq<Tag>, p: nat, o: seq<Tag>, u: nat)
    reads r`off, o`off
  {
    && f != [] && Distinct(f) && xml !in f && FirstAt(f, xml.name, k)
    && Distinct(r) && xml !in r && p == UpTo(r, off) && At(f, k) == At(r, 0)
    && Dropped(f, k, o) && u == UpTo(o, off)
  }

  /** What that makes of the children `t`; `stale` says that the old head stays in the `sibling` chain. */
  predicate PlanGives(xml: Tag, stale: bool, t: seq<Tag>, f: seq<Tag>, r: seq<Tag>, p: nat, o: seq<Tag>, u: nat)
  {
    && p <= |r| && u <= |o| && Named(t, xml.name) == Put(r, xml, p)
    && if stale then p == 0 && o == f && u == 0 && t != [] && t[0] == xml
       else Firsts(t, {}) == if p > 0 then f else Put(o, xml, u)
  }

  lemma InsertPlan(s: seq<Tag>, xml: Tag, off: nat, q: nat, t: seq<Tag>, f: seq<Tag>, r: seq<Tag>)
    returns (k: nat, p: nat, o: seq<Tag>, u: nat)
    requires s != [] && Goes(s, xml, off, q, t)
    requires f == Firsts(s, {}) && r == Named(s, xml.name)
    ensures Planned(xml, off, f, k, r, p, o, u)
    ensures PlanGives(xml, s[0].off > off && s[0].name == xml.name, t, f, r, p, o, u)
    ensures f[0] == s[0]
  {
    k := IndexHeads(s, xml.name);
    o := if 0 < k < |f| then Minus(f, k) else f;
    p, u := UpTo(r, off), UpTo(o, off);
    IndexInserted(s, xml, off);
  }

  lemma IndexAfter(t: seq<Tag>, xml: Tag, head: Tag, stale: bool, f: seq<Tag>, r: seq<Tag>, p: nat,
                   o: seq<Tag>, u: nat, g: seq<Tag>)
    requires PlanGives(xml, stale, t, f, r, p, o, u) && p <= |r| && NextChain(Put(r, xml, p))
    requires u <= |o| && SiblingChain(g) && g == (if p > 0 then f else Put(o, xml, u))
    requires stale ==> f != [] && f[0] == head && head.name == xml.name
    ensures SiblingChain(Firsts(t, {})) <==> !stale
    ensures (stale ==> SiblingChain([xml] + f)) && NextListed(t, xml.name)
  {
    if stale {
      assert g == [xml] + f;
      assert g[0].sibling == g[1];
      StaleHead(t, xml, head);
    }
  }

  /** The search for the name, and the insertion into the two chains of the index. */
  method LinkIndex(xml: Tag, off: nat, head: Tag, ghost f: seq<Tag>, ghost k: nat,
                   ghost r: seq<Tag>, ghost p: nat, ghost o: seq<Tag>, ghost u: nat) returns (ghost g: seq<Tag>)
    requires Planned(xml, off, f, k, r, p, o, u) && head == f[0] && SiblingChain(f) && NextChain(r)
    modifies f`sibling, r`next, xml`next, xml`sibling
    ensures p <= |r| && u <= |o| && NextChain(Put(r, xml, p))
    ensures SiblingChain(g) && g == if p > 0 then f else Put(o, xml, u)
  {
    var prev, cur; ghost var k';
    prev, cur, k' := FindType(head, xml.name, f);
    assert k' == k;
    g := LinkFound(xml, head, off, prev, cur, f, k, r, p, o, u);
  }

  lemma PlannedHead(xml: Tag, off: nat, f: seq<Tag>, k: nat, r: seq<Tag>, p: nat, o: seq<Tag>, u: nat)
    requires Planned(xml, off, f, k, r, p, o, u)
    ensures f != [] && xml !in f && xml !in r
  {
  }

  /** The part of the insertion that keeps the index, as planned: `t` are the new children. */
  method InsertIndexed(xml: Tag, off: nat, head: Tag, ghost t: seq<Tag>, ghost f: seq<Tag>, ghost k: nat,
                       ghost r: seq<Tag>, ghost p: nat, ghost o: seq<Tag>, ghost u: nat)
    requires Planned(xml, off, f, k, r, p, o, u) && head == f[0] && SiblingChain(f) && NextChain(r)
    requires PlanGives(xml, head.off > off && head.name == xml.name, t, f, r, p, o, u)
    modifies f`sibling, r`next, xml`next, xml`sibling
    ensures NextListed(t, xml.name)
    ensures SiblingChain(Firsts(t, {})) <==> !(head.off > off && head.name == xml.name)
    ensures head.off > off && head.name == xml.name ==> SiblingChain([xml] + f)
  {
    hide PlanGives, Planned, Firsts, Named, Put, NextListed;
    PlannedHead(xml, off, f, k, r, p, o, u);
    ghost var g := LinkIndex(xml, off, head, f, k, r, p, o, u);
    IndexAfter(t, xml, head, head.off > off && head.name == xml.name, f, r, p, o, u, g);
  }

  /** The part of the insertion that keeps the index of the children `s`. */
  method IndexAmong(xml: Tag, off: nat, head: Tag, ghost s: seq<Tag>, ghost q: nat, ghost t: seq<Tag>,
                    ghost f: seq<Tag>, ghost r: seq<Tag>)
    requires s != [] && head == s[0] && Goes(s, xml, off, q, t)
    requires f == Firsts(s, {}) && r == Named(s, xml.name) && NextChain(r) && SiblingChain(f)
    modifies f`sibling, r`next, xml`next, xml`sibling
    ensures NextListed(t, xml.name)
    ensures SiblingChain(Firsts(t, {})) <==> !(head.off > off && head.name == xml.name)
    ensures head.off > off && head.name == xml.name ==> SiblingChain([xml] + f)
  {
    ghost var k, p, o, u := InsertPlan(s, xml, off, q, t, f, r);
    InsertIndexed(xml, off, head, t, f, k, r, p, o, u);
  }

  method Clear(xml: Tag, dest: Tag, off: nat, ghost f: seq<Tag>, ghost r: seq<Tag>)
    requires xml !in f && xml !in r && SiblingChain(f) && NextChain(r)
    modifies xml`off, xml`parent, xml`ordered, xml`next, xml`sibling
    ensures xml.next == null && xml.sibling == null && xml.ordered == null && xml.off == off && xml.parent == dest
    ensures SiblingChain(f) && NextChain(r)
  {
    xml.next, xml.sibling, xml.ordered := null, null, null;
    xml.off := off;
    xml.parent := dest;
  }

  /** `ezxml_insert` for a tag whose parent already has children, in terms of the chains alone. */
  method InsertAmong(xml: Tag, dest: Tag, off: nat, head: Tag, ghost s: seq<Tag>, ghost q: nat, ghost t: seq<Tag>,
                     ghost f: seq<Tag>, ghost r: seq<Tag>)
    requires s != [] && head == s[0] && head == dest.child && Goes(s, xml, off, q, t) && OrderedChain(s)
    requires f == Firsts(s, {}) && r == Named(s, xml.name) && NextChain(r) && SiblingChain(f)
    modifies dest`child, s`ordered, xml`ordered, f`sibling, r`next, xml`next, xml`sibling
    ensures dest.child == (if q == 0 then xml else head) && OrderedChain(t) && NextListed(t, xml.name)
    ensures SiblingChain(Firsts(t, {})) <==> !(head.off > off && head.name == xml.name)
    ensures head.off > off && head.name == xml.name ==> SiblingChain([xml] + f)
  {
    LinkOrdered(xml, head, dest, off, s, q);
    IndexAmong(xml, off, head, s, q, t, f, r);
  }

  /** `ezxml_insert` in terms of the chains alone; `s` are the children, `q` is the place of the new one. */
  method InsertLinks(xml: Tag, dest: Tag, off: nat, ghost s: seq<Tag>, ghost q: nat, ghost t: seq<Tag>,
                     ghost f: seq<Tag>, ghost r: seq<Tag>)
    requires dest.child == At(s, 0) && Goes(s, xml, off, q, t) && OrderedChain(s)
    requires f == Firsts(s, {}) && r == Named(s, xml.name) && NextChain(r) && SiblingChain(f)
    modifies xml`off, xml`parent, dest`child, s`ordered, xml`ordered, f`sibling, r`next, xml`next, xml`sibling
    ensures Linked(xml, dest, off, s, q, t) && NextListed(t, xml.name)
    ensures SiblingChain(Firsts(t, {})) <==> !(s != [] && s[0].off > off && s[0].name == xml.name)
    ensures s != [] && s[0].off > off && s[0].name == xml.name ==> SiblingChain([xml] + f)
  {
    hide Distinct, NextChain, OrderedChain, SiblingChain, Firsts, Named;
    Clear(xml, dest, off, f, r);
    var head := dest.child;
    if head != null {
      InsertAmong(xml, dest, off, head, s, q, t, f, r);
    } else {
      FirstKid(xml, dest);
      Alone(xml);
      assert s == [] && t == [xml];
    }
  }

  /** The only child. */
  method FirstKid(xml: Tag, dest: Tag)
    requires xml.ordered == xml.next == xml.sibling == null
    modifies dest`child
    ensures dest.child == xml && OrderedChain([xml]) && NextListed([xml], xml.name) && SiblingChain(Firsts([xml], {}))
  {
    Alone(xml);
    dest.child := xml;
  }

  lemma Alone(xml: Tag)
    ensures Put([], xml, 0) == [xml] && Named([xml], xml.name) == [xml] && Firsts([xml], {}) == [xml]
  {
    assert [xml][1..] == [];
  }

  lemma NotNamed(s: seq<Tag>, n: string, m: string)
    requires n != m
    ensures forall t <- Named(s, n) :: t !in Named(s, m)
  {
  }

  method InsertByName(xml: Tag, dest: Tag, off: nat, ghost s: seq<Tag>, ghost q: nat, ghost t: seq<Tag>,
                      ghost f: seq<Tag>, ghost r: seq<Tag>)
    requires dest.child == At(s, 0) && Goes(s, xml, off, q, t) && OrderedChain(s)
    requires f == Firsts(s, {}) && r == Named(s, xml.name) && NextLists(s) && SiblingChain(f)
    modifies xml`off, xml`parent, dest`child, s`ordered, xml`ordered, f`sibling, r`next, xml`next, xml`sibling
    ensures Linked(xml, dest, off, s, q, t) && NextLists(t)
    ensures SiblingChain(Firsts(t, {})) <==> !(s != [] && s[0].off > off && s[0].name == xml.name)
    ensures s != [] && s[0].off > off && s[0].name == xml.name ==> SiblingChain([xml] + f)
  {
    assert NextListed(s, xml.name);
    InsertLinks(xml, dest, off, s, q, t, f, r);
    forall n | n != xml.name
      ensures NextListed(s, n)
    {
      NotNamed(s, n, xml.name);
    }
    OtherNames(s, xml, q);
  }

  lemma InOrderIs(dest: Tag, xml: Tag, off: nat, s: seq<Tag>, q: nat, t: seq<Tag>)
    requires Goes(s, xml, off, q, t) && dest !in s && dest != xml && dest.kids == t
    requires (forall k <- s :: k.parent == dest) && Linked(xml, dest, off, s, q, t)
    ensures InOrder(dest)
  {
    PutInOrder(s, xml, off);
    forall k | k in dest.kids
      ensures k.parent == dest
    {
    }
  }

  method InsertKid(xml: Tag, dest: Tag, off: nat, ghost s: seq<Tag>, ghost q: nat, ghost t: seq<Tag>)
    requires dest.child == At(s, 0) && Goes(s, xml, off, q, t) && OrderedChain(s)
    requires NextLists(s) && SiblingChain(Firsts(s, {}))
    modifies xml`off, xml`parent, xml`ordered, xml`next, xml`sibling, dest`child, dest`kids
    modifies s`ordered, s`next, s`sibling
    ensures Linked(xml, dest, off, s, q, t) && dest.kids == t && ByName(dest)
    ensures FirstOfEach(dest) <==> !(s != [] && s[0].off > off && s[0].name == xml.name)
    ensures s != [] && s[0].off > off && s[0].name == xml.name ==> SiblingChain([xml] + Firsts(s, {}))
  {
    InsertByName(xml, dest, off, s, q, t, Firsts(s, {}), Named(s, xml.name));
    dest.kids := t;
  }

  lemma HasPlace(s: seq<Tag>, off: nat)
    ensures UpTo(s, off) <= |s| && (UpTo(s, off) == 0 ==> s == [] || s[0].off > off)
    ensures s != [] && s[0].off > off ==> UpTo(s, off) == 0
  {
  }

  /**
   `ezxml_insert`. The children stay sorted, equal offsets in order of insertion, and the lists by name stay right;
   the list of firsts stays right unless the new tag goes in front of a first child of the same name.
   */
  method Insert(xml: Tag, dest: Tag, off: nat)
    requires Indexed(dest) && xml != dest && xml !in dest.kids
    modifies xml`off, xml`parent, xml`ordered, xml`next, xml`sibling, dest`child, dest`kids
    modifies dest.kids`ordered, dest.kids`next, dest.kids`sibling
    ensures dest.kids == old(Put(dest.kids, xml, UpTo(dest.kids, off)))
    ensures xml.off == off && InOrder(dest) && ByName(dest)
    ensures FirstOfEach(dest)
       <==> !old(dest.child != null && dest.child.off > off && dest.child.name == xml.name)
    ensures !FirstOfEach(dest) ==>
      dest.kids == [xml] + old(dest.kids) && SiblingChain([xml] + Firsts(old(dest.kids), {}))
  {
    hide Firsts, Named, NextLists, Linked, OrderedChain, SiblingChain, UpTo;
    HasPlace(dest.kids, off);
    ghost var s, q := dest.kids, UpTo(dest.kids, off);
    InsertKid(xml, dest, off, s, q, Put(s, xml, q));
    InOrderIs(dest, xml, off, s, q, Put(s, xml, q));
  }
}