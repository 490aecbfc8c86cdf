/** The tree that tags in memory show. */
module XmlTags {
  import opened XmlTree
  import XmlIndex

  /** The tag and all below it, which are among `c`, are the element. */
  ghost predicate Shows(t: XmlIndex.Tag, e: Elem, c: set<XmlIndex.Tag>)
    reads c`attrs, c`txt, c`kids, c`off
    decreases e, 1
  {
    t in c && t.name == e.name && t.attrs == e.attrs && t.txt == e.txt && ShowKids(t.kids, e.kids, c)
  }

  ghost predicate ShowKids(s: seq<XmlIndex.Tag>, kids: Kids, c: set<XmlIndex.Tag>)
    reads c`attrs, c`txt, c`kids, c`off
    decreases kids, 0
  {
    match kids
    case NoKids => s == []
    case Kid(off, e, rest) => s != [] && s[0] in c && s[0].off == off && Shows(s[0], e, c) && ShowKids(s[1..], rest, c)
  }

  /** More tags do not matter. */
  lemma {:induction false} ShowsMore(t: XmlIndex.Tag, e: Elem, c: set<XmlIndex.Tag>, d: set<XmlIndex.Tag>)
    requires Shows(t, e, c) && c <= d
    ensures Shows(t, e, d)
    decreases e, 1
  {
    ShowKidsMore(t.kids, e.kids, c, d);
  }

  lemma {:induction false} ShowKidsMore(s: seq<XmlIndex.Tag>, kids: Kids, c: set<XmlIndex.Tag>, d: set<XmlIndex.Tag>)
    requires ShowKids(s, kids, c) && c <= d
    ensures ShowKids(s, kids, d)
    decreases kids, 0
  {
    if kids.Kid? {
      ShowsMore(s[0], kids.elem, c, d);
      ShowKidsMore(s[1..], kids.rest, c, d);
    }
  }

  lemma {:induction false} ShowKidsSnoc(s: seq<XmlIndex.Tag>, kids: Kids, c: set<XmlIndex.Tag>, t: XmlIndex.Tag,
                                        e: Elem)
    requires ShowKids(s, kids, c) && Shows(t, e, c)
    ensures ShowKids(s + [t], Snoc(kids, t.off, e), c)
    decreases kids
  {
    if kids.NoKids? {
      assert s + [t] == [t] && [t][1..] == [];
    } else {
      assert (s + [t])[1..] == s[1..] + [t];
      ShowKidsSnoc(s[1..], kids.rest, c, t, e);
    }
  }

  /** A tag shows one element only. */
  lemma {:induction false} ShowsOne(t: XmlIndex.Tag, e: Elem, f: Elem, c: set<XmlIndex.Tag>, d: set<XmlIndex.Tag>)
    requires Shows(t, e, c) && Shows(t, f, d)
    ensures e == f
    decreases e, 1
  {
    ShowKidsOne(t.kids, e.kids, f.kids, c, d);
  }

  lemma {:induction false} ShowKidsOne(s: seq<XmlIndex.Tag>, k: Kids, l: Kids, c: set<XmlIndex.Tag>,
                                       d: set<XmlIndex.Tag>)
    requires ShowKids(s, k, c) && ShowKids(s, l, d)
    ensures k == l
    decreases k, 0
  {
    if k.Kid? && l.Kid? {
      ShowsOne(s[0], k.elem, l.elem, c, d);
      ShowKidsOne(s[1..], k.rest, l.rest, c, d);
    }
  }

  /** Every tag keeps its children, which are tags of the set, in its three chains. */
  ghost predicate Indexes(all: set<XmlIndex.Tag>)
    reads all`child, all`kids, all`ordered, all`off, all`parent, all`next, all`sibling
  {
    forall t <- all :: (forall k <- t.kids :: k in all) && XmlIndex.Indexed(t)
  }
}
