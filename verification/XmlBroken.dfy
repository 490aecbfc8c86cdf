/** Two short runs that leave the list of first children wrong. */
module XmlBroken {
  import opened XmlIndex
  import opened XmlCut

  /** A tag inserted in front of a first child of its name: the index then lists that name twice or not at all. */
  method InsertInFront() returns (root: Tag)
    ensures fresh(root) && InOrder(root) && ByName(root) && !FirstOfEach(root)
  {
    hide *;
    root := new Tag("root");
    var late := new Tag("a");
    var early := new Tag("a");
    Childless(root);
    Append(late, root, 5);
    Headed(root);
    Insert(early, root, 3);
  }

  lemma Headed(p: Tag)
    requires Indexed(p) && p.kids != []
    ensures p.child == p.kids[0]
  {
  }

  lemma ThreeTags(s: seq<Tag>)
    requires |s| == 3 && s[0] != s[1] && s[1] != s[2] && s[0] != s[2]
    requires s[0].name == s[2].name != s[1].name && NextLists(s) && SiblingChain(Firsts(s, {}))
    ensures Loses(s, s[0])
  {
    var a := s[0].name;
    var s1, s2 := s[1..], s[1..][1..];
    assert s1[0] == s[1] && s2[0] == s[2] && s2[1..] == [];
    assert Named(s2[1..], a) == [] && Named(s2, a) == [s[2]] && Named(s1, a) == [s[2]];
    assert Named(s, a) == [s[0], s[2]];
    assert NextListed(s, a);
    assert Named(s, a)[0].next == s[2];
    ThreeFirsts(s);
    assert Firsts(s, {})[0].sibling == s[1];
    ThreePlaces(s);
  }

  lemma ThreeFirsts(s: seq<Tag>)
    requires |s| == 3 && s[0].name == s[2].name != s[1].name
    ensures Firsts(s, {}) == [s[0], s[1]]
  {
    var seen := {s[0].name, s[1].name};
    assert s[1..][1..] == [s[2]] && [s[2]][1..] == [];
    assert Firsts([s[2]], seen) == [];
    assert {s[0].name} + {s[1].name} == seen;
    assert Firsts(s[1..], {s[0].name}) == [s[1]];
    assert {} + {s[0].name} == {s[0].name};
  }

  lemma ThreePlaces(s: seq<Tag>)
    requires |s| == 3 && s[0] != s[1] && s[1] != s[2] && s[0] != s[2] && s[0].name == s[2].name != s[1].name
    ensures At0(s, s[1]) == 1 && At0(s, s[2]) == 2 && Lookup(s, s[0].name, 0) == s[0]
  {
    assert s[1..][0] == s[1] && s[1..][1..][0] == s[2];
  }

  /** The children a, b and a, one after the other. */
  method ThreeChildren() returns (root: Tag)
    ensures fresh(root) && fresh(root.kids) && Indexed(root) && |root.kids| == 3
    ensures root.kids[0].name == root.kids[2].name == "a" && root.kids[1].name == "b"
  {
    hide *;
    root := new Tag("root");
    var a := new Tag("a");
    var b := new Tag("b");
    var c := new Tag("a");
    Childless(root);
    var tags := [a, b, c];
    assert root.kids + tags == tags;
    ThreeDistinct(tags);
    AppendAll(root, tags, [0, 0, 0]);
  }

  /** The first of them is cut: the walk of `Child` no longer finds the other one of its name. */
  method CutApart() returns (root: Tag)
    ensures fresh(root) && InOrder(root) && ByName(root) && !FirstOfEach(root) && !Visible(root)
  {
    hide *;
    root := ThreeChildren();
    ThreeLost(root);
    Parents(root);
    Headed(root);
    Cut(root.child);
  }

  lemma Parents(p: Tag)
    requires Indexed(p)
    ensures forall t <- p.kids :: t.parent == p
  {
  }

  lemma ThreeDistinct(s: seq<Tag>)
    requires |s| == 3 && s[0] != s[1] && s[1] != s[2] && s[0] != s[2]
    ensures Distinct(s)
  {
  }

  lemma ThreeLost(p: Tag)
    requires Indexed(p) && |p.kids| == 3 && p.kids[0].name == p.kids[2].name != p.kids[1].name
    ensures Loses(p.kids, p.kids[0])
  {
    ThreeTags(p.kids);
  }
}
