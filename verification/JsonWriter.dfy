/** `print_value` without a print buffer: every node's text in memory of its own. */
module JsonWriter {
  import Seqs
  import opened CText
  import opened JsonText
  import opened JsonItem
  import opened JsonStore

  // ----- every printed text is a C string -----

  lemma {:induction false} DigitsNulFree(n: nat)
    ensures NulFree(Digits(n))
  {
    if n >= 10 {
      DigitsNulFree(n / 10);
    }
  }

  lemma {:induction false} TabsNulFree(n: int)
    ensures NulFree(Tabs(n))
    decreases n
  {
    if n > 0 {
      TabsNulFree(n - 1);
    }
  }

  lemma NulFreeCat(a: string, b: string)
    requires NulFree(a) && NulFree(b)
    ensures NulFree(a + b)
  {
  }

  lemma {:induction false} PrintNulFree(v: Json, depth: nat, fmt: bool)
    requires Printable(v)
    ensures NulFree(Print(v, depth, fmt))
    decreases v, 1
  {
    match v
    case Number(d) => DigitsNulFree(if d.Floor < 0 then -d.Floor else d.Floor);
    case String(s) => EscapedNulFree(s);
    case Array(items) =>
      ItemsNulFree(items, depth, fmt);
      NulFreeCat("[", PrintItems(items, depth, fmt));
      NulFreeCat("[" + PrintItems(items, depth, fmt), "]");
    case Object(members) => ObjectNulFree(members, depth, fmt);
    case _ =>
  }

  lemma {:induction false} ItemsNulFree(items: Items, depth: nat, fmt: bool)
    requires PrintableItems(items)
    ensures NulFree(PrintItems(items, depth, fmt))
    decreases items, 0
  {
    if items.Item? {
      PrintNulFree(items.head, depth + 1, fmt);
      ItemsNulFree(items.next, depth, fmt);
      NulFreeCat(Comma(fmt), PrintItems(items.next, depth, fmt));
      NulFreeCat(Print(items.head, depth + 1, fmt),
        if items.next.NoItem? then "" else Comma(fmt) + PrintItems(items.next, depth, fmt));
    }
  }

  lemma {:induction false} ObjectNulFree(members: Members, depth: nat, fmt: bool)
    requires PrintableMembers(members)
    ensures NulFree(Print(Object(members), depth, fmt))
    decreases members, 1
  {
    TabsNulFree(depth - 1);
    TabsNulFree(depth);
    MembersNulFree(members, depth + 1, fmt);
    if members.Member? {
      var open := "{" + (if fmt then "\n" else "");
      var body := open + PrintMembers(members, depth + 1, fmt);
      NulFreeCat(open, PrintMembers(members, depth + 1, fmt));
      NulFreeCat(body, if fmt then Tabs(depth) else "");
      NulFreeCat(body + (if fmt then Tabs(depth) else ""), "}");
    }
  }

  lemma {:induction false} MembersNulFree(members: Members, depth: nat, fmt: bool)
    requires PrintableMembers(members)
    ensures NulFree(PrintMembers(members, depth, fmt))
    decreases members, 0
  {
    if members.Member? {
      TabsNulFree(depth);
      EscapedNulFree(members.key);
      PrintNulFree(members.value, depth, fmt);
      MembersNulFree(members.after, depth, fmt);
      var a := (if fmt then Tabs(depth) else "") + Quote(members.key) + (if fmt then ":\t" else ":");
      NulFreeCat(a, Print(members.value, depth, fmt));
      var b := a + Print(members.value, depth, fmt);
      var c := b + (if members.after.NoMember? then "" else ",") + (if fmt then "\n" else "");
      NulFreeCat(c, PrintMembers(members.after, depth, fmt));
    }
  }

  // ----- numbers -----

  function Power10(k: nat): nat {
    if k == 0 then 1 else 10 * Power10(k - 1)
  }

  lemma {:induction false} DigitsShort(n: nat, k: nat)
    requires 0 < k && n < Power10(k)
    ensures |Digits(n)| <= k
    decreases k
  {
    if n >= 10 {
      assert Power10(1) == 10;
      DigitsShort(n / 10, k - 1);
    }
  }

  /** `sprintf(str, "%d", n)` stays within the 21 bytes asked for. */
  lemma Int32Short(n: int)
    requires INT_MIN <= n <= INT_MAX
    ensures |ShowInt(n)| <= 11
  {
    assert Power10(10) == 10_000_000_000 by {
      assert Power10(5) == 100_000;
    }
    DigitsShort(if n < 0 then -n else n, 10);
  }

  /** `print_number`: the size asked for and the text. */
  method NumberText(d: real) returns (size: nat, text: string)
    requires IsInt32(d)
    ensures text == ShowInt(d.Floor) && NulFree(text) && |text| < size <= 21
  {
    Int32Short(d.Floor);
    DigitsNulFree(if d.Floor < 0 then -d.Floor else d.Floor);
    if d == 0.0 {
      size, text := 2, "0";
    } else {
      size, text := 21, ShowInt(d.Floor);
    }
  }

  // ----- allocating printer -----

  /** `cJSON_strdup` and the like: a new C string. */
  method NewText(size: nat, s: string) returns (out: array<char>)
    requires |s| < size && NulFree(s)
    ensures fresh(out) && Holds(out[..], 0, s)
  {
    out := new char[size];
    var k := Put(out, 0, s);
    assert out[0..k] == out[..k] == s;
    Terminate(out, 0, k, s);
  }

  /** `print_string_ptr(str, 0)` */
  method PrintString(str: string) returns (out: array<char>)
    requires NulFree(str)
    ensures fresh(out) && Holds(out[..], 0, Quote(str))
  {
    var flag, len := Measure(str);
    out := new char[len + 3];
    PutQuoted(out, 0, str, flag, len);
  }

  /** `print_value(item, depth, fmt, 0)` */
  method PrintValue(item: CJson, depth: nat, fmt: bool) returns (out: array<char>)
    requires item.Valid() && Printable(item.View())
    ensures fresh(out) && Holds(out[..], 0, Print(old(item.View()), depth, fmt))
    decreases item.Repr, 3
  {
    match item.kind
    case KNull => out := NewText(5, "null");
    case KFalse => out := NewText(6, "false");
    case KTrue => out := NewText(5, "true");
    case KNumber =>
      var size, text := NumberText(item.valuedouble);
      out := NewText(size, text);
    case KString => out := PrintString(item.valuestring);
    case KArray => out := PrintArray(item, depth, fmt);
    case KObject => out := PrintObject(item, depth, fmt);
  }

  /** The node behind `kids[i - 1]` in the list `kids`. */
  ghost function NodeAt(kids: seq<CJson>, i: nat): CJson?
    requires i <= |kids|
  {
    if i < |kids| then kids[i] else null
  }

  /** Walking along the list of a valid node. */
  lemma AlongKids(item: CJson, i: nat)
    requires item.Valid() && i <= |item.kids|
    ensures i == 0 ==> item.child == NodeAt(item.kids, 0)
    ensures i < |item.kids| ==>
      && item.kids[i].next == NodeAt(item.kids, i + 1)
      && item.kids[i].Valid() && item.kids[i].Repr < item.Repr
  {
    assert Chain(item.child, item.kids);
    if i < |item.kids| {
      var k := item.kids[i];
      assert k in item.kids && k.next == if i == |item.kids| - 1 then null else item.kids[i + 1];
      assert k in item.Repr && k !in k.Repr && k.Repr <= item.Repr;
    }
  }

  // ----- arrays -----

  function Texts(items: Items, depth: nat, fmt: bool): seq<string> {
    if items.NoItem? then [] else [Print(items.head, depth + 1, fmt)] + Texts(items.next, depth, fmt)
  }

  function Join(texts: seq<string>, fmt: bool): string {
    if texts == [] then ""
    else texts[0] + (if |texts| == 1 then "" else Comma(fmt) + Join(texts[1..], fmt))
  }

  lemma {:induction false} JoinTexts(items: Items, depth: nat, fmt: bool)
    ensures PrintItems(items, depth, fmt) == Join(Texts(items, depth, fmt), fmt)
    decreases items
  {
    if items.Item? {
      JoinTexts(items.next, depth, fmt);
      assert Texts(items, depth, fmt)[1..] == Texts(items.next, depth, fmt);
    }
  }

  /** What `print_array` sums up for its items. */
  function Room(texts: seq<string>, each: nat): nat {
    if texts == [] then 0 else |texts[0]| + each + Room(texts[1..], each)
  }

  lemma {:induction false} RoomSnoc(texts: seq<string>, t: string, each: nat)
    ensures Room(texts + [t], each) == Room(texts, each) + |t| + each
  {
    if texts == [] {
      assert (texts + [t])[1..] == [];
    } else {
      assert (texts + [t])[1..] == texts[1..] + [t];
      RoomSnoc(texts[1..], t, each);
    }
  }

  /** The length computed in advance covers the array's text. */
  lemma {:induction false} RoomEnough(texts: seq<string>, fmt: bool)
    ensures |Join(texts, fmt)| <= Room(texts, if fmt then 3 else 2)
  {
    if texts != [] {
      RoomEnough(texts[1..], fmt);
    }
  }

  /** `entries` are C strings with the given texts. */
  ghost predicate Stored(entries: seq<array<char>>, texts: seq<string>)
    reads entries
  {
    |entries| == |texts| && forall i :: 0 <= i < |texts| ==> Holds(entries[i][..], 0, texts[i])
  }

  lemma StoredSnoc(entries: seq<array<char>>, texts: seq<string>, ret: array<char>, text: string)
    requires Stored(entries, texts) && Holds(ret[..], 0, text)
    ensures Stored(entries + [ret], texts + [text])
  {
  }

  /** One item's text, its length, and the node behind it. */
  method PrintEntry(item: CJson, child: CJson, ghost i: nat, ghost rest: Items, depth: nat, fmt: bool)
    returns (ret: array<char>, n: nat, next: CJson?)
    requires item.Valid() && i < |item.kids| && child == item.kids[i]
    requires item.ItemsFrom(i) == rest && PrintableItems(rest)
    ensures fresh(ret) && Holds(ret[..], 0, Print(rest.head, depth + 1, fmt)) && n == |Print(rest.head, depth + 1, fmt)|
    ensures item.Valid() && next == NodeAt(item.kids, i + 1) && item.ItemsFrom(i + 1) == rest.next
    decreases item.Repr, 0
  {
    AlongKids(item, i);
    next := child.next;
    ret := PrintValue(child, depth + 1, fmt);
    n := Strlen(ret, 0, Print(rest.head, depth + 1, fmt));
  }

  lemma TextsStep(texts: seq<string>, rest: Items, depth: nat, fmt: bool)
    requires rest.Item?
    ensures texts + Texts(rest, depth, fmt) == texts + [Print(rest.head, depth + 1, fmt)] + Texts(rest.next, depth, fmt)
  {
  }

  /** Every item's text, printed first to last, and the length to allocate. */
  method CollectItems(item: CJson, ghost all: Items, depth: nat, fmt: bool)
      returns (entries: seq<array<char>>, len: nat)
    requires item.Valid() && item.ItemsFrom(0) == all && PrintableItems(all)
    ensures Stored(entries, Texts(all, depth, fmt))
    ensures len == 5 + Room(Texts(all, depth, fmt), if fmt then 3 else 2)
    decreases item.Repr, 1
  {
    hide CJson.Valid, Holds, Print, Chain, Apart;
    entries, len := [], 5;
    ghost var texts, rest := [], all;
    ghost var i: nat := 0;
    var child := item.child;
    AlongKids(item, 0);
    while child != null
      invariant item.Valid() && i <= |item.kids| && child == NodeAt(item.kids, i) && item.ItemsFrom(i) == rest
      invariant PrintableItems(rest) && Texts(all, depth, fmt) == texts + Texts(rest, depth, fmt)
      invariant Stored(entries, texts) && len == 5 + Room(texts, if fmt then 3 else 2)
      decreases rest
    {
      RoomSnoc(texts, Print(rest.head, depth + 1, fmt), if fmt then 3 else 2);
      TextsStep(texts, rest, depth, fmt);
      var ret, n, next := PrintEntry(item, child, i, rest, depth, fmt);
      StoredSnoc(entries, texts, ret, Print(rest.head, depth + 1, fmt));
      texts := texts + [Print(rest.head, depth + 1, fmt)];
      entries, len := entries + [ret], len + n + 2 + (if fmt then 1 else 0);
      child, i, rest := next, i + 1, rest.next;
    }
    assert texts + [] == texts;
  }

  lemma JoinStep(done: string, texts: seq<string>, fmt: bool, close: string)
    requires texts != []
    ensures done + (Join(texts, fmt) + close)
         == done + texts[0] + (if |texts| == 1 then "" else Comma(fmt)) + (Join(texts[1..], fmt) + close)
  {
    if |texts| > 1 {
      Seqs.Assoc(texts[0], Comma(fmt), Join(texts[1..], fmt));
      Seqs.Assoc(texts[0] + Comma(fmt), Join(texts[1..], fmt), close);
      Seqs.Assoc(done, texts[0] + Comma(fmt), Join(texts[1..], fmt) + close);
      Seqs.Assoc(done, texts[0], Comma(fmt));
    } else {
      assert texts[0] + "" == texts[0];
      assert texts[1..] == [] && "" + close == close;
      assert done + texts[0] + "" == done + texts[0];
    }
  }

  /** "Compose the output array." */
  method ComposeItems(entries: seq<array<char>>, ghost texts: seq<string>, fmt: bool, len: nat)
      returns (out: array<char>)
    requires Stored(entries, texts) && |Join(texts, fmt)| + 2 < len && NulFree("[" + Join(texts, fmt) + "]")
    ensures fresh(out) && Holds(out[..], 0, "[" + Join(texts, fmt) + "]")
  {
    ghost var whole := "[" + Join(texts, fmt) + "]";
    out := new char[len];
    var ptr := Put(out, 0, "[");
    assert texts[0..] == texts;
    assert out[..ptr] == "[" && "[" + (Join(texts, fmt) + "]") == whole;
    for i := 0 to |entries|
      invariant 0 <= ptr <= out.Length && Stored(entries, texts)
      invariant out[..ptr] + (Join(texts[i..], fmt) + "]") == whole
    {
      JoinStep(out[..ptr], texts[i..], fmt, "]");
      assert texts[i..][1..] == texts[i + 1..] && texts[i..][0] == texts[i];
      ptr := PutEntry(out, ptr, entries[i], texts[i], if i != |entries| - 1 then Comma(fmt) else "");
    }
    assert texts[|entries|..] == [] && "" + "]" == "]";
    ptr := Put(out, ptr, "]");
    assert out[0..ptr] == out[..ptr];
    Terminate(out, 0, ptr, whole);
  }

  /** `strlen`, `memcpy`, and what follows the entry. */
  method PutEntry(out: array<char>, at: nat, entry: array<char>, ghost text: string, behind: string) returns (ptr: nat)
    requires out != entry && Holds(entry[..], 0, text) && at + |text| + |behind| <= out.Length
    modifies out
    ensures ptr == at + |text| + |behind| && out[..ptr] == old(out[..at]) + text + behind
  {
    var tmplen := Strlen(entry, 0, text);
    assert entry[..tmplen] == entry[..][0..0 + |text|];
    ptr := Copy(out, at, entry, tmplen);
    ptr := Put(out, ptr, behind);
  }

  method PrintArray(item: CJson, depth: nat, fmt: bool) returns (out: array<char>)
    requires item.Valid() && item.kind == KArray && Printable(item.View())
    ensures fresh(out) && Holds(out[..], 0, Print(old(item.View()), depth, fmt))
    decreases item.Repr, 2
  {
    AlongKids(item, 0);
    PrintNulFree(item.View(), depth, fmt);
    if item.child == null {
      out := NewText(3, "[]");
    } else {
      ghost var items := item.ItemsFrom(0);
      var entries, len := CollectItems(item, items, depth, fmt);
      ghost var texts := Texts(items, depth, fmt);
      JoinTexts(items, depth, fmt);
      RoomEnough(texts, fmt);
      out := ComposeItems(entries, texts, fmt, len);
    }
  }

  // ----- objects -----

  /** The names and values of the members, printed. */
  function MemberTexts(members: Members, depth: nat, fmt: bool): seq<(string, string)> {
    if members.NoMember? then []
    else [(Quote(members.key), Print(members.value, depth, fmt))] + MemberTexts(members.after, depth, fmt)
  }

  function MemberLine(t: (string, string), depth: nat, fmt: bool, last: bool): string {
    (if fmt then Tabs(depth) else "") + t.0 + (if fmt then ":\t" else ":") + t.1
    + (if last then "" else ",") + (if fmt then "\n" else "")
  }

  function JoinMembers(ts: seq<(string, string)>, depth: nat, fmt: bool): string {
    if ts == [] then "" else MemberLine(ts[0], depth, fmt, |ts| == 1) + JoinMembers(ts[1..], depth, fmt)
  }

  lemma {:induction false} JoinMemberTexts(members: Members, depth: nat, fmt: bool)
    ensures PrintMembers(members, depth, fmt) == JoinMembers(MemberTexts(members, depth, fmt), depth, fmt)
    decreases members
  {
    if members.Member? {
      JoinMemberTexts(members.after, depth, fmt);
      assert MemberTexts(members, depth, fmt)[1..] == MemberTexts(members.after, depth, fmt);
    }
  }

  /** What `print_object` sums up for its members. */
  function MembersRoom(ts: seq<(string, string)>, each: nat): nat {
    if ts == [] then 0 else |ts[0].0| + |ts[0].1| + each + MembersRoom(ts[1..], each)
  }

  lemma {:induction false} MembersRoomSnoc(ts: seq<(string, string)>, t: (string, string), each: nat)
    ensures MembersRoom(ts + [t], each) == MembersRoom(ts, each) + |t.0| + |t.1| + each
  {
    if ts == [] {
      assert (ts + [t])[1..] == [];
    } else {
      assert (ts + [t])[1..] == ts[1..] + [t];
      MembersRoomSnoc(ts[1..], t, each);
    }
  }

  function Each(depth: nat, fmt: bool): nat {
    2 + if fmt then 2 + depth else 0
  }

  /** The length computed in advance covers the object's text. */
  lemma {:induction false} MembersRoomEnough(ts: seq<(string, string)>, depth: nat, fmt: bool)
    ensures |JoinMembers(ts, depth, fmt)| <= MembersRoom(ts, Each(depth, fmt))
  {
    if ts != [] {
      TabsAre(depth);
      MembersRoomEnough(ts[1..], depth, fmt);
    }
  }

  ghost predicate StoredPairs(names: seq<array<char>>, entries: seq<array<char>>, ts: seq<(string, string)>)
    reads names, entries
  {
    && |names| == |entries| == |ts|
    && forall i :: 0 <= i < |ts| ==> Holds(names[i][..], 0, ts[i].0) && Holds(entries[i][..], 0, ts[i].1)
  }

  lemma StoredPairsSnoc(names: seq<array<char>>, entries: seq<array<char>>, ts: seq<(string, string)>,
                        str: array<char>, ret: array<char>, t: (string, string))
    requires StoredPairs(names, entries, ts) && Holds(str[..], 0, t.0) && Holds(ret[..], 0, t.1)
    ensures StoredPairs(names + [str], entries + [ret], ts + [t])
  {
  }

  /** One member's name and value, their lengths, and the node behind it. */
  method PrintPair(item: CJson, child: CJson, ghost i: nat, ghost rest: Members, depth: nat, fmt: bool)
    returns (str: array<char>, ret: array<char>, n: nat, next: CJson?)
    requires item.Valid() && i < |item.kids| && child == item.kids[i]
    requires item.MembersFrom(i) == rest && PrintableMembers(rest)
    ensures fresh(str) && Holds(str[..], 0, Quote(rest.key))
    ensures fresh(ret) && Holds(ret[..], 0, Print(rest.value, depth, fmt))
    ensures n == |Quote(rest.key)| + |Print(rest.value, depth, fmt)|
    ensures item.Valid() && next == NodeAt(item.kids, i + 1) && item.MembersFrom(i + 1) == rest.after
    decreases item.Repr, 0
  {
    hide Print, Quote, Holds, Chain, Apart;
    AlongKids(item, i);
    next := child.next;
    str := PrintString(child.key);
    ret := PrintValue(child, depth, fmt);
    n := Strlen(ret, 0, Print(rest.value, depth, fmt));
    var m := Strlen(str, 0, Quote(rest.key));
    n := n + m;
  }

  lemma MemberTextsStep(ts: seq<(string, string)>, rest: Members, depth: nat, fmt: bool)
    requires rest.Member?
    ensures ts + MemberTexts(rest, depth, fmt)
         == ts + [(Quote(rest.key), Print(rest.value, depth, fmt))] + MemberTexts(rest.after, depth, fmt)
  {
  }

  /** "Collect all the results into our arrays", and the length to allocate. */
  method CollectMembers(item: CJson, ghost all: Members, depth: nat, fmt: bool)
    returns (names: seq<array<char>>, entries: seq<array<char>>, len: nat)
    requires item.Valid() && item.MembersFrom(0) == all && PrintableMembers(all)
    ensures StoredPairs(names, entries, MemberTexts(all, depth, fmt))
    ensures len == 7 + (if fmt then depth else 0) + MembersRoom(MemberTexts(all, depth, fmt), Each(depth, fmt))
    decreases item.Repr, 1
  {
    hide CJson.Valid, Holds, Print, Quote, Chain, Apart;
    names, entries, len := [], [], 7 + if fmt then depth else 0;
    ghost var ts, rest := [], all;
    ghost var i: nat := 0;
    var child := item.child;
    AlongKids(item, 0);
    while child != null
      invariant item.Valid() && i <= |item.kids| && child == NodeAt(item.kids, i) && item.MembersFrom(i) == rest
      invariant PrintableMembers(rest) && MemberTexts(all, depth, fmt) == ts + MemberTexts(rest, depth, fmt)
      invariant StoredPairs(names, entries, ts)
      invariant len == 7 + (if fmt then depth else 0) + MembersRoom(ts, Each(depth, fmt))
      decreases rest
    {
      ghost var t := (Quote(rest.key), Print(rest.value, depth, fmt));
      MembersRoomSnoc(ts, t, Each(depth, fmt));
      MemberTextsStep(ts, rest, depth, fmt);
      var str, ret, n, next := PrintPair(item, child, i, rest, depth, fmt);
      StoredPairsSnoc(names, entries, ts, str, ret, t);
      ts := ts + [t];
      names, entries := names + [str], entries + [ret];
      len := len + n + 2 + (if fmt then 2 + depth else 0);
      child, i, rest := next, i + 1, rest.after;
    }
    assert ts + [] == ts;
  }

  /** One member of "Compose the output". */
  method PutMember(out: array<char>, at: nat, name: array<char>, entry: array<char>, ghost t: (string, string),
                   depth: nat, fmt: bool, last: bool) returns (ptr: nat)
    requires out != name && out != entry && Holds(name[..], 0, t.0) && Holds(entry[..], 0, t.1)
    requires at + |MemberLine(t, depth, fmt, last)| <= out.Length
    modifies out
    ensures ptr == at + |MemberLine(t, depth, fmt, last)|
    ensures out[..ptr] == old(out[..at]) + MemberLine(t, depth, fmt, last)
  {
    ptr := at;
    if fmt {
      ptr := PutTabs(out, ptr, depth);
    }
    assert out[..ptr] == old(out[..at]) + (if fmt then Tabs(depth) else "");
    ptr := PutEntry(out, ptr, name, t.0, if fmt then ":\t" else ":");
    ptr := PutEntry(out, ptr, entry, t.1, if last then "" else ",");
    ptr := Put(out, ptr, if fmt then "\n" else "");
    Regroup6(old(out[..at]), if fmt then Tabs(depth) else "", t.0, if fmt then ":\t" else ":", t.1,
      if last then "" else ",", if fmt then "\n" else "");
  }

  lemma Regroup6(done: string, a: string, b: string, c: string, d: string, e: string, f: string)
    ensures done + a + b + c + d + e + f == done + (a + b + c + d + e + f)
  {
  }

  lemma MemberStep(done: string, ts: seq<(string, string)>, depth: nat, fmt: bool, close: string)
    requires ts != []
    ensures done + (JoinMembers(ts, depth, fmt) + close)
         == done + MemberLine(ts[0], depth, fmt, |ts| == 1) + (JoinMembers(ts[1..], depth, fmt) + close)
  {
    var l := MemberLine(ts[0], depth, fmt, |ts| == 1);
    Seqs.Assoc(l, JoinMembers(ts[1..], depth, fmt), close);
    Seqs.Assoc(done, l, JoinMembers(ts[1..], depth, fmt) + close);
  }

  ghost function ObjectFrame(body: string, depth: nat, fmt: bool): string {
    "{" + (if fmt then "\n" else "") + body + (if fmt then Tabs(depth - 1) else "") + "}"
  }

  /** "Compose the output"; `depth` counts the object itself. */
  method ComposeMembers(names: seq<array<char>>, entries: seq<array<char>>, ghost ts: seq<(string, string)>,
                        depth: nat, fmt: bool, len: nat) returns (out: array<char>)
    requires StoredPairs(names, entries, ts)
    requires var whole := ObjectFrame(JoinMembers(ts, depth, fmt), depth, fmt); |whole| < len && NulFree(whole)
    ensures fresh(out) && Holds(out[..], 0, ObjectFrame(JoinMembers(ts, depth, fmt), depth, fmt))
  {
    hide MemberLine, Tabs, Holds, NulFree;
    ghost var whole := ObjectFrame(JoinMembers(ts, depth, fmt), depth, fmt);
    ghost var close := (if fmt then Tabs(depth - 1) else "") + "}";
    out := new char[len];
    var ptr := Put(out, 0, "{");
    ptr := Put(out, ptr, if fmt then "\n" else "");
    assert ts[0..] == ts;
    FrameSplit(JoinMembers(ts, depth, fmt), depth, fmt);
    assert out[..ptr] == "{" + (if fmt then "\n" else "");
    for i := 0 to |entries|
      invariant 0 <= ptr <= out.Length && StoredPairs(names, entries, ts)
      invariant out[..ptr] + (JoinMembers(ts[i..], depth, fmt) + close) == whole
    {
      MemberStep(out[..ptr], ts[i..], depth, fmt, close);
      assert ts[i..][1..] == ts[i + 1..] && ts[i..][0] == ts[i];
      ptr := PutMember(out, ptr, names[i], entries[i], ts[i], depth, fmt, i == |entries| - 1);
    }
    assert ts[|entries|..] == [] && "" + close == close;
    ptr := PutClose(out, ptr, depth, fmt);
    assert out[0..ptr] == out[..ptr];
    Terminate(out, 0, ptr, whole);
  }

  lemma FrameSplit(body: string, depth: nat, fmt: bool)
    ensures ObjectFrame(body, depth, fmt)
         == ("{" + (if fmt then "\n" else "")) + (body + ((if fmt then Tabs(depth - 1) else "") + "}"))
  {
  }

  /** `if (fmt) for (i = 0; i < depth - 1; i++) *ptr++ = '\t'; *ptr++ = '}';` */
  method PutClose(out: array<char>, at: nat, depth: int, fmt: bool) returns (ptr: nat)
    requires at + |(if fmt then Tabs(depth - 1) else "") + "}"| <= out.Length
    modifies out
    ensures ptr == at + |(if fmt then Tabs(depth - 1) else "") + "}"|
    ensures out[..ptr] == old(out[..at]) + ((if fmt then Tabs(depth - 1) else "") + "}")
  {
    ptr := at;
    if fmt {
      ptr := PutTabs(out, ptr, depth - 1);
    }
    ptr := Put(out, ptr, "}");
  }

  /** The empty object, whose closing brace is indented by `depth - 1`. */
  method PrintEmptyObject(depth: nat, fmt: bool) returns (out: array<char>)
    ensures fresh(out) && Holds(out[..], 0, Print(Object(NoMember), depth, fmt))
  {
    TabsAre(depth - 1);
    TabsNulFree(depth - 1);
    out := new char[if fmt then depth + 4 else 3];
    var ptr := Put(out, 0, if fmt then "{\n" else "{");
    ptr := PutClose(out, ptr, depth, fmt);
    assert out[0..ptr] == out[..ptr];
    assert fmt ==> "{" + ("\n" + Tabs(depth - 1)) + "}" == "{\n" + (Tabs(depth - 1) + "}");
    Terminate(out, 0, ptr, Print(Object(NoMember), depth, fmt));
  }

  method PrintObject(item: CJson, depth: nat, fmt: bool) returns (out: array<char>)
    requires item.Valid() && item.kind == KObject && Printable(item.View())
    ensures fresh(out) && Holds(out[..], 0, Print(old(item.View()), depth, fmt))
    decreases item.Repr, 2
  {
    AlongKids(item, 0);
    if item.child == null {
      out := PrintEmptyObject(depth, fmt);
    } else {
      ghost var members := item.MembersFrom(0);
      ObjectNulFree(members, depth, fmt);
      var names, entries, len := CollectMembers(item, members, depth + 1, fmt);
      ghost var ts := MemberTexts(members, depth + 1, fmt);
      JoinMemberTexts(members, depth + 1, fmt);
      MembersRoomEnough(ts, depth + 1, fmt);
      TabsAre(depth);
      assert ObjectFrame(JoinMembers(ts, depth + 1, fmt), depth + 1, fmt) == Print(Object(members), depth, fmt);
      out := ComposeMembers(names, entries, ts, depth + 1, fmt, len);
    }
  }

  /** `cJSON_Print` and `cJSON_PrintUnformatted` */
  method PrintText(item: CJson, fmt: bool) returns (out: array<char>)
    requires item.Valid() && Printable(item.View())
    ensures fresh(out) && HasCStr(out[..], 0) && CStr(out[..], 0) == Print(old(item.View()), 0, fmt)
  {
    out := PrintValue(item, 0, fmt);
    HoldsCStr(out[..], 0, Print(old(item.View()), 0, fmt));
  }
}
