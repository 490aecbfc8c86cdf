/** The cJSON node in memory. */
module JsonItem {
  import opened JsonText

  datatype Kind = KFalse | KTrue | KNull | KNumber | KString | KArray | KObject

  class CJson {
    var kind: Kind
    var valuestring: string
    var valuedouble: real
    var key: string
    var next: CJson?
    var prev: CJson?
    var child: CJson?

    ghost var kids: seq<CJson>    // the child list
    ghost var Repr: set<CJson>    // everything below this node

    /** `cJSON_New_Item`: a node of zero bytes. */
    constructor ()
      ensures Blank() && next == null && prev == null
    {
      kind, valuestring, valuedouble, key := KFalse, "", 0.0, "";
      next, prev, child := null, null, null;
      kids, Repr := [], {};
    }

    ghost predicate Blank()
      reads this`child, this`kids, this`Repr
    {
      child == null && kids == [] && Repr == {}
    }

    /** Nothing here depends on `next`, `prev` and `key`, which belong to the parent's list. */
    ghost predicate Valid()
      reads this`child, this`kids, this`Repr, Repr
      decreases Repr
    {
      && this !in Repr
      && (forall k <- kids :: k in Repr)
      && Chain(child, kids)
      && (forall k <- kids :: k !in k.Repr && k.Repr <= Repr && k.Valid())
      && Apart(kids)
    }

    /** The value this node stands for. */
    ghost function View(): Json
      requires Valid()
      reads this`kind, this`valuestring, this`valuedouble, this`child, this`kids, this`Repr, Repr
      decreases Repr, 1, 0
    {
      match kind
      case KFalse => False
      case KTrue => True
      case KNull => Null
      case KNumber => Number(valuedouble)
      case KString => String(valuestring)
      case KArray => Array(ItemsFrom(0))
      case KObject => Object(MembersFrom(0))
    }

    ghost function ItemsFrom(i: nat): Items
      requires Valid() && i <= |kids|
      reads this`child, this`kids, this`Repr, Repr
      decreases Repr, 0, |kids| - i
    {
      if i == |kids| then NoItem else Item(kids[i].View(), ItemsFrom(i + 1))
    }

    ghost function MembersFrom(i: nat): Members
      requires Valid() && i <= |kids|
      reads this`child, this`kids, this`Repr, Repr
      decreases Repr, 0, |kids| - i
    {
      if i == |kids| then NoMember else Member(kids[i].key, kids[i].View(), MembersFrom(i + 1))
    }
  }

  /** `first` starts a doubly linked list of exactly the nodes `kids`, in order. */
  ghost predicate Chain(first: CJson?, kids: seq<CJson>)
    reads kids`next, kids`prev
  {
    && first == (if kids == [] then null else kids[0])
    && (forall i {:trigger kids[i].prev} :: 0 <= i < |kids| ==> kids[i].prev == (if i == 0 then null else kids[i - 1]))
    && (forall i {:trigger kids[i].next} :: 0 <= i < |kids| ==>
          kids[i].next == (if i == |kids| - 1 then null else kids[i + 1]))
  }

  /** No node is shared between two children. */
  ghost predicate Apart(kids: seq<CJson>)
    reads kids`Repr
  {
    forall i, j :: 0 <= i < j < |kids| ==>
      kids[i] != kids[j] && kids[i] !in kids[j].Repr && kids[j] !in kids[i].Repr && kids[i].Repr !! kids[j].Repr
  }

  /**
   The nodes `kids` are the roots of separate trees, whose other nodes are in `D`;
   `views` are their keys and values.  Their own links do not matter here.
   */
  ghost predicate Trees(kids: seq<CJson>, D: set<CJson>, views: seq<(string, Json)>)
    reads kids`kind, kids`valuestring, kids`valuedouble, kids`key, kids`child, kids`kids, kids`Repr, D
  {
    && (forall k <- kids :: k !in D && k.Repr <= D && k.Valid())
    && Apart(kids)
    && |views| == |kids|
    && forall i :: 0 <= i < |kids| ==> views[i] == (kids[i].key, kids[i].View())
  }

  function ItemsOf(views: seq<(string, Json)>, tail: Items): Items {
    if views == [] then tail else Item(views[0].1, ItemsOf(views[1..], tail))
  }

  function MembersOf(views: seq<(string, Json)>, tail: Members): Members {
    if views == [] then tail else Member(views[0].0, views[0].1, MembersOf(views[1..], tail))
  }

  lemma {:induction false} KidsView(item: CJson, views: seq<(string, Json)>, i: nat)
    requires item.Valid() && i <= |item.kids| == |views|
    requires forall j :: 0 <= j < |views| ==> (item.kids[j].key, item.kids[j].View()) == views[j]
    ensures item.ItemsFrom(i) == ItemsOf(views[i..], NoItem)
    ensures item.MembersFrom(i) == MembersOf(views[i..], NoMember)
    decreases |views| - i
  {
    if i < |views| {
      KidsView(item, views, i + 1);
      assert views[i..][1..] == views[i + 1..];
    }
  }

  /** The finished list becomes the children of `item`. */
  ghost method Adopt(item: CJson, kids: seq<CJson>, D: set<CJson>, views: seq<(string, Json)>)
    requires Chain(item.child, kids) && Trees(kids, D, views) && item !in kids && item !in D
    modifies item`kids, item`Repr
    ensures item.kids == kids && item.Repr == D + (set k <- kids) && item.Valid()
    ensures item.kind == KArray ==> item.View() == Array(ItemsOf(views, NoItem))
    ensures item.kind == KObject ==> item.View() == Object(MembersOf(views, NoMember))
  {
    item.kids, item.Repr := kids, D + (set k <- kids);
    assert item.Valid();
    KidsView(item, views, 0);
    assert views[0..] == views;
  }
}
