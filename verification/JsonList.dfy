/** The child list operations of cJSON. */
module JsonList {
  import opened JsonItem

  // ----- what the operations do to the sequence of children -----

  /** Where an operation at `which` takes place; `|s|` when it is past the end. */
  function Place<T>(s: seq<T>, which: int): (i: nat)
    ensures i <= |s|
  {
    if which < 0 then 0 else if which > |s| then |s| else which
  }

  function Inserted<T>(s: seq<T>, which: int, x: T): seq<T> {
    s[..Place(s, which)] + [x] + s[Place(s, which)..]
  }

  function Detached<T>(s: seq<T>, which: int): seq<T> {
    var i := Place(s, which);
    if i == |s| then s else s[..i] + s[i + 1..]
  }

  function Replaced<T>(s: seq<T>, which: int, x: T): seq<T> {
    var i := Place(s, which);
    if i == |s| then s else s[..i] + [x] + s[i + 1..]
  }

  lemma InsertedIs<T>(s: seq<T>, which: int, x: T)
    ensures var i, t := Place(s, which), Inserted(s, which, x);
      t == s[..i] + [x] + s[i..] && (i == |s| ==> t == s + [x]) && forall y <- t :: y == x || y in s
  {
  }

  lemma DetachedIs<T>(s: seq<T>, which: int)
    ensures var i, t := Place(s, which), Detached(s, which);
      if i == |s| then t == s else t == s[..i] + s[i + 1..] && forall y <- t :: y in s
  {
  }

  lemma ReplacedIs<T>(s: seq<T>, which: int, x: T)
    ensures var i, t := Place(s, which), Replaced(s, which, x);
      if i == |s| then t == s else t == s[..i] + [x] + s[i + 1..] && forall y <- t :: y == x || y in s
  {
  }

  /** Places count from zero: the new item stands at its place, with those before and behind it as they were. */
  lemma PlacesCount<T>(s: seq<T>, which: nat, x: T)
    ensures which <= |s| ==> var t := Inserted(s, which, x);
      |t| == |s| + 1 && t[which] == x && t[..which] == s[..which] && t[which + 1..] == s[which..]
    ensures which < |s| ==> Detached(s, which) == s[..which] + s[which + 1..] && Replaced(s, which, x) == s[which := x]
    ensures which >= |s| ==> Inserted(s, which, x) == s + [x] && Detached(s, which) == s == Replaced(s, which, x)
  {
  }

  /** Detaching where something was inserted gives the list back, exactly if that was not past the end. */
  lemma DetachInserted<T>(s: seq<T>, which: int, x: T)
    ensures Detached(Inserted(s, which, x), which) == s <==> which <= |s|
    ensures which <= |s| ==> Place(s, which) < |Inserted(s, which, x)| && Inserted(s, which, x)[Place(s, which)] == x
  {
    var i := Place(s, which);
    var t := Inserted(s, which, x);
    if which <= |s| {
      assert t[..i] == s[..i] && t[i + 1..] == s[i..];
    } else {
      assert |Detached(t, which)| == |s| + 1;
    }
  }

  /** A replacement is a detachment and an insertion at the same place. */
  lemma ReplaceIsDetachInsert<T>(s: seq<T>, which: int, x: T)
    requires Place(s, which) < |s|
    ensures Replaced(s, which, x) == Inserted(Detached(s, which), which, x)
  {
    var i := Place(s, which);
    var t := Detached(s, which);
    assert t[..i] == s[..i] && t[i..] == s[i + 1..];
  }

  // ----- the lists -----

  /** `item` is a tree of its own that may become a child of `parent`. */
  ghost predicate Separate(parent: CJson, item: CJson)
    reads parent`Repr, item`Repr
  {
    item != parent && item !in parent.Repr && parent !in item.Repr && item.Repr !! parent.Repr
  }

  /** `while (c && which > 0) c = c->next, which--;` */
  method Find(parent: CJson, which: int) returns (c: CJson?)
    requires Chain(parent.child, parent.kids)
    ensures c == (if Place(parent.kids, which) < |parent.kids| then parent.kids[Place(parent.kids, which)] else null)
  {
    c := parent.child;
    var w := which;
    ghost var i: nat := 0;
    ghost var kids := parent.kids;
    while c != null && w > 0
      invariant i <= |kids| && c == (if i < |kids| then kids[i] else null)
      invariant w == (if which < 0 then which else which - i) && (which < 0 ==> i == 0) && (which >= 0 ==> i <= which)
      decreases |kids| - i
    {
      assert Chain(parent.child, kids);
      assert kids[i].next == (if i == |kids| - 1 then null else kids[i + 1]);
      c, w, i := c.next, w - 1, i + 1;
    }
  }

  /** The nodes are the roots of separate trees; their own links do not matter here. */
  ghost predicate Rooted(kids: seq<CJson>)
    reads kids`child, kids`kids, kids`Repr, set k, o | k in kids && o in k.Repr :: o
  {
    (forall k <- kids :: k.Valid()) && Apart(kids)
  }

  ghost predicate Distinct(kids: seq<CJson>) {
    forall i, j :: 0 <= i < j < |kids| ==> kids[i] != kids[j]
  }

  /** `newitem->next = c; newitem->prev = c->prev; c->prev = newitem; ...` in front of `kids[i]`. */
  method LinkBefore(parent: CJson, c: CJson, newitem: CJson, ghost i: nat)
    requires Chain(parent.child, parent.kids) && Distinct(parent.kids) && i < |parent.kids| && c == parent.kids[i]
    requires newitem !in parent.kids && newitem != parent && parent !in parent.kids
    modifies parent`child, newitem`next, newitem`prev, parent.kids`prev, parent.kids`next
    ensures Chain(parent.child, parent.kids[..i] + [newitem] + parent.kids[i..])
  {
    ghost var kids := parent.kids;
    ghost var t := kids[..i] + [newitem] + kids[i..];
    assert forall k <- kids :: k != newitem;
    newitem.next := c;
    newitem.prev := c.prev;
    c.prev := newitem;
    if c == parent.child {
      parent.child := newitem;
    } else {
      assert newitem.prev == kids[i - 1] && kids[i - 1] in kids;
      newitem.prev.next := newitem;
    }
    forall j | 0 <= j < |t|
      ensures t[j].prev == (if j == 0 then null else t[j - 1]) && t[j].next == (if j == |t| - 1 then null else t[j + 1])
    {
      if j < i {
        assert t[j] == kids[j] && kids[j] in kids;
      } else if j > i {
        assert t[j] == kids[j - 1] && kids[j - 1] in kids;
      }
    }
  }

  /** `prev->next = item; item->prev = prev;` behind the last child, or as the only one. */
  method LinkLast(parent: CJson, c: CJson?, item: CJson)
    requires Chain(parent.child, parent.kids) && Distinct(parent.kids)
    requires c == (if parent.kids == [] then null else parent.kids[|parent.kids| - 1])
    requires item !in parent.kids && item != parent && parent !in parent.kids && item.next == item.prev == null
    modifies parent`child, item`prev, parent.kids`next
    ensures Chain(parent.child, parent.kids + [item])
  {
    ghost var kids := parent.kids;
    ghost var t := kids + [item];
    assert forall k <- kids :: k != item;
    if c == null {
      parent.child := item;
    } else {
      c.next := item;
      item.prev := c;
    }
    forall j | 0 <= j < |t|
      ensures t[j].prev == (if j == 0 then null else t[j - 1]) && t[j].next == (if j == |t| - 1 then null else t[j + 1])
    {
      if j < |kids| {
        assert t[j] == kids[j] && kids[j] in kids;
      }
    }
  }

  /** Unlink `kids[i]` and clear its links. */
  method Unlink(parent: CJson, c: CJson, ghost i: nat)
    requires Chain(parent.child, parent.kids) && Distinct(parent.kids) && i < |parent.kids| && c == parent.kids[i]
    requires parent !in parent.kids
    modifies parent`child, parent.kids`prev, parent.kids`next
    ensures Chain(parent.child, parent.kids[..i] + parent.kids[i + 1..]) && c.prev == c.next == null
  {
    ghost var kids := parent.kids;
    ghost var t := kids[..i] + kids[i + 1..];
    assert i > 0 ==> c.prev == kids[i - 1] && kids[i - 1] in kids;
    assert i < |kids| - 1 ==> c.next == kids[i + 1] && kids[i + 1] in kids;
    if c.prev != null {
      c.prev.next := c.next;
    }
    if c.next != null {
      c.next.prev := c.prev;
    }
    if c == parent.child {
      parent.child := c.next;
    }
    c.prev, c.next := null, null;
    forall j | 0 <= j < |t|
      ensures t[j].prev == (if j == 0 then null else t[j - 1]) && t[j].next == (if j == |t| - 1 then null else t[j + 1])
    {
      if j < i {
        assert t[j] == kids[j] && kids[j] in kids;
      } else {
        assert t[j] == kids[j + 1] && kids[j + 1] in kids;
      }
    }
  }

  /** Put `newitem` in the place of `kids[i]`, which loses its links. */
  method LinkInstead(parent: CJson, c: CJson, newitem: CJson, ghost i: nat)
    requires Chain(parent.child, parent.kids) && Distinct(parent.kids) && i < |parent.kids| && c == parent.kids[i]
    requires newitem !in parent.kids && newitem != parent && parent !in parent.kids
    modifies parent`child, newitem`next, newitem`prev, parent.kids`prev, parent.kids`next
    ensures Chain(parent.child, parent.kids[..i] + [newitem] + parent.kids[i + 1..]) && c.prev == c.next == null
  {
    ghost var kids := parent.kids;
    ghost var t := kids[..i] + [newitem] + kids[i + 1..];
    assert forall k <- kids :: k != newitem;
    assert i > 0 ==> c.prev == kids[i - 1] && kids[i - 1] in kids;
    assert i < |kids| - 1 ==> c.next == kids[i + 1] && kids[i + 1] in kids;
    newitem.next := c.next;
    newitem.prev := c.prev;
    if newitem.next != null {
      newitem.next.prev := newitem;
    }
    if c == parent.child {
      parent.child := newitem;
    } else {
      newitem.prev.next := newitem;
    }
    c.next, c.prev := null, null;
    forall j | 0 <= j < |t|
      ensures t[j].prev == (if j == 0 then null else t[j - 1]) && t[j].next == (if j == |t| - 1 then null else t[j + 1])
    {
      if j != i {
        assert t[j] == kids[j] && kids[j] in kids;
      }
    }
  }

  // ----- the operations -----

  ghost predicate ApartFrom(a: CJson, b: CJson)
    reads a`Repr, b`Repr
  {
    a != b && a !in b.Repr && b !in a.Repr && a.Repr !! b.Repr
  }

  lemma ApartWith(kids: seq<CJson>, i: nat, item: CJson)
    requires i <= |kids| && Apart(kids) && forall k <- kids :: ApartFrom(k, item)
    ensures Apart(kids[..i] + [item] + kids[i..])
  {
    var t := kids[..i] + [item] + kids[i..];
    assert forall m :: 0 <= m < |t| && m != i ==> t[m] == kids[if m < i then m else m - 1];
    forall m, n | 0 <= m < n < |t|
      ensures ApartFrom(t[m], t[n])
    {
      if m == i {
        assert t[n] in kids && ApartFrom(t[n], item);
      } else if n == i {
        assert t[m] in kids && ApartFrom(t[m], item);
      }
    }
    assert forall m, n :: 0 <= m < n < |t| ==> ApartFrom(t[m], t[n]);
  }

  ghost function Below(kids: seq<CJson>): set<CJson>
    reads kids`Repr
  {
    set k, o | k in kids && o in k.Repr :: o
  }

  /** The list now linked from `parent`, of separate trees, becomes its children. */
  ghost method Readopt(parent: CJson, kids: seq<CJson>)
    requires Chain(parent.child, kids) && Rooted(kids)
    requires parent !in kids && forall k <- kids :: parent !in k.Repr
    modifies parent`kids, parent`Repr
    ensures parent.Valid() && parent.kids == kids && parent.Repr == (set k <- kids) + Below(kids)
  {
    hide CJson.Valid, Chain, Apart;
    parent.kids := kids;
    parent.Repr := (set k <- kids) + Below(kids);
    AllValid(parent);
  }

  lemma AllValid(parent: CJson)
    requires Chain(parent.child, parent.kids) && Rooted(parent.kids) && parent !in parent.kids
    requires (forall k <- parent.kids :: parent !in k.Repr)
      && parent.Repr == (set k <- parent.kids) + Below(parent.kids)
    ensures parent.Valid()
  {
    hide Apart;
    forall k | k in parent.kids
      ensures k !in k.Repr && k.Repr <= parent.Repr
    {
      assert k.Valid();
    }
  }

  /** A tree that was not adopted stands apart. */
  lemma Dropped(parent: CJson, c: CJson)
    requires parent.Repr == (set k <- parent.kids) + Below(parent.kids) && forall k <- parent.kids :: ApartFrom(k, c)
    requires parent != c && parent !in c.Repr
    ensures Separate(parent, c)
  {
  }

  /** What a valid parent says about its children. */
  lemma Opened(parent: CJson)
    requires parent.Valid()
    ensures Chain(parent.child, parent.kids) && Distinct(parent.kids) && Rooted(parent.kids)
    ensures parent !in parent.kids
    ensures forall k <- parent.kids :: parent !in k.Repr && forall j <- parent.kids :: j !in k.Repr
  {
    forall k, j | k in parent.kids && j in parent.kids
      ensures j !in k.Repr
    {
      var m :| 0 <= m < |parent.kids| && parent.kids[m] == k;
      var n :| 0 <= n < |parent.kids| && parent.kids[n] == j;
    }
  }

  lemma Unrelated(parent: CJson, item: CJson)
    requires parent.Valid() && item.Valid() && Separate(parent, item)
    ensures item !in item.Repr && forall k <- parent.kids :: ApartFrom(k, item)
  {
    forall k | k in parent.kids
      ensures ApartFrom(k, item)
    {
      assert k in parent.Repr && k.Repr <= parent.Repr;
    }
  }

  lemma NextKid(c: CJson, parent: CJson, i: nat)
    requires Chain(parent.child, parent.kids) && i < |parent.kids| && c == parent.kids[i]
    ensures c.next == null <==> i == |parent.kids| - 1
    ensures i < |parent.kids| - 1 ==> c.next == parent.kids[i + 1]
  {
  }

  /** `while (c && c->next) c = c->next;` */
  method Last(parent: CJson) returns (c: CJson?)
    requires Chain(parent.child, parent.kids)
    ensures c == (if parent.kids == [] then null else parent.kids[|parent.kids| - 1])
  {
    ghost var kids := parent.kids;
    c := parent.child;
    if c != null {
      ghost var i: nat := 0;
      while c.next != null
        invariant i < |kids| && c == kids[i]
        decreases |kids| - i
      {
        NextKid(c, parent, i);
        c, i := c.next, i + 1;
      }
      NextKid(c, parent, i);
    }
  }

  /** A tree with none of the nodes whose links change below its root. */
  ghost predicate Steady(k: CJson, parent: CJson, kids: seq<CJson>)
    reads k`child, k`kids, k`Repr, k.Repr
  {
    k.Valid() && k != parent && parent !in k.Repr && forall j <- kids :: j !in k.Repr
  }

  ghost predicate Stand(parent: CJson, kids: seq<CJson>, item: CJson)
    reads kids`child, kids`kids, kids`Repr, Below(kids), item`child, item`kids, item`Repr, item.Repr
  {
    (forall k <- kids :: Steady(k, parent, kids + [item])) && Steady(item, parent, kids + [item])
  }

  lemma AllSteady(parent: CJson, item: CJson)
    requires parent.Valid() && item.Valid() && Separate(parent, item)
    ensures Stand(parent, parent.kids, item)
  {
    hide CJson.Valid;
    Opened(parent);
    Unrelated(parent, item);
  }

  /** A list made of such trees. */
  lemma Reroot(parent: CJson, kids: seq<CJson>, item: CJson, t: seq<CJson>)
    requires Stand(parent, kids, item) && Apart(t) && forall k <- t :: k == item || k in kids
    ensures Rooted(t) && parent !in t && forall k <- t :: parent !in k.Repr
  {
    hide CJson.Valid;
  }

  /** `LinkBefore`, with what it means for the trees. */
  method Insert(parent: CJson, c: CJson, newitem: CJson, ghost i: nat)
    requires Chain(parent.child, parent.kids) && Distinct(parent.kids) && i < |parent.kids| && c == parent.kids[i]
    requires newitem !in parent.kids && newitem != parent && parent !in parent.kids
    requires Stand(parent, parent.kids, newitem)
    modifies parent`child, newitem`next, newitem`prev, parent.kids`prev, parent.kids`next
    ensures Chain(parent.child, parent.kids[..i] + [newitem] + parent.kids[i..])
    ensures Stand(parent, parent.kids, newitem)
  {
    hide CJson.Valid, Chain;
    LinkBefore(parent, c, newitem, i);
  }

  /** `LinkInstead`, with what it means for the trees. */
  method Exchange(parent: CJson, c: CJson, newitem: CJson, ghost i: nat)
    requires Chain(parent.child, parent.kids) && Distinct(parent.kids) && i < |parent.kids| && c == parent.kids[i]
    requires newitem !in parent.kids && newitem != parent && parent !in parent.kids
    requires Stand(parent, parent.kids, newitem)
    modifies parent`child, newitem`next, newitem`prev, parent.kids`prev, parent.kids`next
    ensures Chain(parent.child, parent.kids[..i] + [newitem] + parent.kids[i + 1..]) && c.prev == c.next == null
    ensures Stand(parent, parent.kids, newitem)
  {
    hide CJson.Valid, Chain;
    LinkInstead(parent, c, newitem, i);
  }

  /** `LinkLast`, with what it means for the trees. */
  method Attach(parent: CJson, c: CJson?, item: CJson)
    requires Chain(parent.child, parent.kids) && Distinct(parent.kids)
    requires c == (if parent.kids == [] then null else parent.kids[|parent.kids| - 1])
    requires item !in parent.kids && item != parent && parent !in parent.kids && item.next == item.prev == null
    requires Stand(parent, parent.kids, item)
    modifies parent`child, item`prev, parent.kids`next
    ensures Chain(parent.child, parent.kids + [item]) && Stand(parent, parent.kids, item)
  {
    hide CJson.Valid, Chain;
    LinkLast(parent, c, item);
  }

  /** `cJSON_AddItemToArray` with an item. */
  method AddItemToArray(parent: CJson, item: CJson)
    requires parent.Valid() && item.Valid() && Separate(parent, item) && item.next == item.prev == null
    modifies parent`child, parent`kids, parent`Repr, parent.kids`next, item`prev
    ensures parent.Valid() && parent.kids == old(parent.kids) + [item]
  {
    hide CJson.Valid, Chain, Apart, Distinct, Stand, Rooted, Below;
    ghost var kids := parent.kids;
    Opened(parent);
    Unrelated(parent, item);
    var c := Last(parent);
    AllSteady(parent, item);
    Attach(parent, c, item);
    assert kids[..|kids|] + [item] + kids[|kids|..] == kids + [item];
    ApartWith(kids, |kids|, item);
    Reroot(parent, kids, item, kids + [item]);
    Readopt(parent, kids + [item]);
  }

  /** `cJSON_InsertItemInArray` */
  method InsertItemInArray(parent: CJson, which: int, newitem: CJson)
    requires parent.Valid() && newitem.Valid() && Separate(parent, newitem) && newitem.next == newitem.prev == null
    modifies parent`child, parent`kids, parent`Repr, parent.kids`next, parent.kids`prev, newitem`next, newitem`prev
    ensures parent.Valid() && parent.kids == Inserted(old(parent.kids), which, newitem)
  {
    hide CJson.Valid, Chain, Apart, Distinct, Inserted, Stand, Rooted, Below;
    ghost var kids, i := parent.kids, Place(parent.kids, which);
    Opened(parent);
    var c := Find(parent, which);
    InsertedIs(kids, which, newitem);
    if c == null {
      AddItemToArray(parent, newitem);
    } else {
      Unrelated(parent, newitem);
      AllSteady(parent, newitem);
      Insert(parent, c, newitem, i);
      ApartWith(kids, i, newitem);
      Reroot(parent, kids, newitem, Inserted(kids, which, newitem));
      Readopt(parent, Inserted(kids, which, newitem));
    }
  }

  /** `cJSON_DetachItemFromArray` */
  method DetachItemFromArray(parent: CJson, which: int) returns (c: CJson?)
    requires parent.Valid()
    modifies parent`child, parent`kids, parent`Repr, parent.kids`next, parent.kids`prev
    ensures parent.Valid() && parent.kids == Detached(old(parent.kids), which)
    ensures var i, kids := Place(old(parent.kids), which), old(parent.kids); c == (if i < |kids| then kids[i] else null)
    ensures c != null ==> c.Valid() && Separate(parent, c) && c.next == c.prev == null
  {
    hide CJson.Valid, Chain, Apart, Distinct, Detached, Below;
    ghost var kids, i := parent.kids, Place(parent.kids, which);
    Opened(parent);
    DetachedIs(kids, which);
    c := Find(parent, which);
    if c != null {
      Unlink(parent, c, i);
      assert forall k <- kids :: k.Valid();
      ApartWithout(kids, i);
      Readopt(parent, Detached(kids, which));
      Dropped(parent, c);
    }
  }

  lemma ApartWithout(kids: seq<CJson>, i: nat)
    requires i < |kids| && Apart(kids)
    ensures var t := kids[..i] + kids[i + 1..]; Apart(t) && forall k <- t :: k in kids && ApartFrom(k, kids[i])
  {
    var t := kids[..i] + kids[i + 1..];
    assert forall m :: 0 <= m < |t| ==> t[m] == kids[if m < i then m else m + 1];
    forall k | k in t
      ensures k in kids && ApartFrom(k, kids[i])
    {
      var m :| 0 <= m < |t| && t[m] == k;
      assert m < i ==> ApartFrom(kids[m], kids[i]);
      assert m >= i ==> ApartFrom(kids[i], kids[m + 1]);
    }
  }

  lemma ApartInstead(kids: seq<CJson>, which: int, item: CJson)
    requires Place(kids, which) < |kids| && Apart(kids) && forall k <- kids :: ApartFrom(k, item)
    ensures Apart(Replaced(kids, which, item)) && forall k <- Replaced(kids, which, item) :: k == item || k in kids
  {
    var i, t := Place(kids, which), Detached(kids, which);
    ApartWithout(kids, i);
    ReplaceIsDetachInsert(kids, which, item);
    ApartWith(t, i, item);
    assert t[..i] + [item] + t[i..] == Replaced(kids, which, item);
  }

  /** And all apart from the child that left. */
  lemma ApartFromOld(kids: seq<CJson>, which: int, item: CJson)
    requires Place(kids, which) < |kids| && Apart(kids) && forall k <- kids :: ApartFrom(k, item)
    ensures forall k <- Replaced(kids, which, item) :: ApartFrom(k, kids[Place(kids, which)])
  {
    hide Apart;
    var i, t := Place(kids, which), Replaced(kids, which, item);
    ApartWithout(kids, i);
    forall k | k in t
      ensures ApartFrom(k, kids[i])
    {
      if k != item {
        var j :| 0 <= j < |t| && t[j] == k;
        assert j != i ==> k in kids[..i] + kids[i + 1..];
      } else {
        assert ApartFrom(kids[i], item);
      }
    }
  }

  /** `cJSON_ReplaceItemInArray`; the old child is left to `cJSON_Delete`. */
  method ReplaceItemInArray(parent: CJson, which: int, newitem: CJson) returns (c: CJson?)
    requires parent.Valid() && newitem.Valid() && Separate(parent, newitem)
    modifies parent`child, parent`kids, parent`Repr, parent.kids`next, parent.kids`prev, newitem`next, newitem`prev
    ensures parent.Valid() && parent.kids == Replaced(old(parent.kids), which, newitem)
    ensures var i, kids := Place(old(parent.kids), which), old(parent.kids); c == (if i < |kids| then kids[i] else null)
    ensures c != null ==> c.Valid() && Separate(parent, c) && c.next == c.prev == null
  {
    hide CJson.Valid, Chain, Apart, Distinct, Replaced, Stand, Rooted, Below;
    ghost var kids, i := parent.kids, Place(parent.kids, which);
    Opened(parent);
    Unrelated(parent, newitem);
    ReplacedIs(kids, which, newitem);
    c := Find(parent, which);
    if c != null {
      AllSteady(parent, newitem);
      Exchange(parent, c, newitem, i);
      ApartInstead(kids, which, newitem);
      Reroot(parent, kids, newitem, Replaced(kids, which, newitem));
      StandsApart(parent, kids, newitem, c);
      ApartFromOld(kids, which, newitem);
      Readopt(parent, Replaced(kids, which, newitem));
      Dropped(parent, c);
    }
  }

  lemma StandsApart(parent: CJson, kids: seq<CJson>, item: CJson, c: CJson)
    requires Stand(parent, kids, item) && c in kids
    ensures c.Valid() && parent != c && parent !in c.Repr
  {
    hide CJson.Valid;
  }

  /** Inserting a node and detaching at the same place: the list is as before, and the node stands apart again. */
  method InsertThenDetach(parent: CJson, which: int, newitem: CJson) returns (c: CJson?)
    requires parent.Valid() && newitem.Valid() && Separate(parent, newitem) && newitem.next == newitem.prev == null
    requires which <= |parent.kids|
    modifies parent`child, parent`kids, parent`Repr, parent.kids`next, parent.kids`prev, newitem`next, newitem`prev
    ensures parent.Valid() && parent.kids == old(parent.kids) && c == newitem && Separate(parent, newitem)
    ensures newitem.Valid() && newitem.next == newitem.prev == null
  {
    hide CJson.Valid, Chain, Apart, Inserted, Detached, Separate;
    ghost var s := parent.kids;
    DetachInserted(s, which, newitem);
    InsertedIs(s, which, newitem);
    PlaceIn(s, which, newitem);
    InsertItemInArray(parent, which, newitem);
    c := DetachItemFromArray(parent, which);
  }

  lemma PlaceIn<T>(s: seq<T>, which: int, x: T)
    requires which <= |s|
    ensures Place(Inserted(s, which, x), which) == Place(s, which)
  {
  }
}
