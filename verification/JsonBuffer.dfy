/** `print_value` into one growing buffer. */
module JsonBuffer {
  import Seqs
  import opened CText
  import opened JsonText
  import opened JsonItem
  import opened JsonStore
  import opened JsonWriter
  import opened Bits

  /** The largest size `pow2gt` can round up within an `int`. */
  const MAX_SIZE := Pow2(30)

  /** `print_number` asks for up to 21 bytes whatever the number. */
  const SLACK := 21

  /** `newsize = pow2gt(needed)` */
  method RoundUp(needed: nat) returns (newsize: nat)
    requires 0 < needed <= MAX_SIZE
    ensures needed <= newsize <= MAX_SIZE && exists n: nat :: newsize == Pow2(n) && (n > 0 ==> Pow2(n - 1) < needed)
  {
    ghost var n := Pow2gtIs(needed, 30);
    Pow2Monotone(n, 30);
    newsize := Pow2gt(needed);
  }

  class PrintBuffer {
    var buffer: array<char>
    var length: nat
    var offset: nat

    constructor (prebuffer: nat)
      requires prebuffer > 0
      ensures Valid() && offset == 0 && fresh(buffer)
    {
      buffer := new char[prebuffer];
      length := prebuffer;
      offset := 0;
    }

    ghost predicate Valid()
      reads this
    {
      length == buffer.Length && offset <= length
    }

    /** The text in front of the offset. */
    ghost function Done(): string
      requires Valid()
      reads this, buffer
    {
      buffer[..offset]
    }

    /** A text of that length can still be printed here. */
    ghost predicate Fits(n: nat)
      reads this
    {
      offset + n + SLACK <= MAX_SIZE
    }

    /** `ensure`: room for `needed` more bytes at the offset. */
    method Ensure(needed: nat) returns (ptr: nat)
      requires Valid() && 0 < needed + offset <= MAX_SIZE
      modifies this
      ensures Valid() && ptr == offset == old(offset) && offset + needed <= length
      ensures Done() == old(Done()) && (buffer == old(buffer) || fresh(buffer))
    {
      var end := needed + offset;
      if end <= length {
        return offset;
      }
      var newsize := RoundUp(end);
      var newbuffer := new char[newsize];
      var k := Copy(newbuffer, 0, buffer, length);
      assert newbuffer[..k][..offset] == buffer[..length][..offset];
      assert newbuffer[..offset] == newbuffer[..k][..offset] && buffer[..offset] == buffer[..length][..offset];
      length, buffer := newsize, newbuffer;
      ptr := offset;
    }

    /** `p->offset = update(p)` */
    method Update(ghost tail: string)
      requires Valid() && Holds(buffer[..], offset, tail)
      modifies this`offset
      ensures Valid() && Done() == old(Done()) + tail
    {
      var n := Strlen(buffer, offset, tail);
      assert buffer[..offset + n] == buffer[..offset] + buffer[..][offset..offset + n];
      offset := offset + n;
    }

    /** `ptr = ensure(p, |s| + extra); *ptr++ = ...; p->offset += |s|;` */
    method Append(s: string, extra: nat)
      requires Valid() && Fits(|s|) && extra <= 1 && |s| + extra > 0
      modifies this, buffer
      ensures Valid() && Done() == old(Done()) + s && (buffer == old(buffer) || fresh(buffer))
    {
      var ptr := Ensure(|s| + extra);
      var k := Put(buffer, ptr, s);
      if extra == 1 {
        buffer[k] := '\0';
      }
      assert buffer[..k] == old(Done()) + s;
      offset := offset + |s|;
    }

    /** `strcpy` or `sprintf` into `ensure(p, size)`; the offset stays. */
    method Write(s: string, size: nat)
      requires Valid() && NulFree(s) && |s| < size <= |s| + SLACK && Fits(|s|)
      modifies this, buffer
      ensures Valid() && offset == old(offset) && Done() == old(Done()) && (buffer == old(buffer) || fresh(buffer))
      ensures Holds(buffer[..], offset, s)
    {
      var ptr := Ensure(size);
      var k := Put(buffer, ptr, s);
      assert buffer[ptr..k] == buffer[..k][ptr..] == s;
      assert buffer[..ptr] == buffer[..k][..ptr];
      Terminate(buffer, ptr, k, s);
      assert buffer[..ptr] == buffer[..k][..ptr];
    }

    /** `print_string_ptr(str, p)` */
    method PrintString(str: string)
      requires Valid() && NulFree(str) && Fits(|Quote(str)|)
      modifies this, buffer
      ensures Valid() && offset == old(offset) && Done() == old(Done()) && (buffer == old(buffer) || fresh(buffer))
      ensures Holds(buffer[..], offset, Quote(str))
    {
      var flag, len := Measure(str);
      var ptr := Ensure(len + 3);
      PutQuoted(buffer, ptr, str, flag, len);
    }

    /** The text so far: what is in front of the offset, and the C string at it. */
    ghost predicate Shows(text: string, tail: string)
      reads this, buffer
    {
      Valid() && Holds(buffer[..], offset, tail) && Done() + tail == text
    }

    /** `print_value(item, depth, fmt, p)`; `out` is the index the source returns a pointer to. */
    method PrintValue(item: CJson, depth: nat, fmt: bool) returns (out: nat, ghost tail: string)
      requires item.Valid() && Printable(item.View()) && Valid() && Fits(|Print(item.View(), depth, fmt)|)
      modifies this, buffer
      ensures Shows(old(Done()) + Print(old(item.View()), depth, fmt), tail) && (buffer == old(buffer) || fresh(buffer))
      ensures out == if item.kind == KObject && item.child != null && fmt then depth else old(offset)
      ensures item.Valid() && item.View() == old(item.View())
      decreases item.Repr, 3
    {
      hide CJson.Valid, Chain, Apart, Holds, Quote, ShowInt;
      out := offset;
      match item.kind
      case KNull => Write("null", 5);
        tail := "null";
      case KFalse => Write("false", 6);
        tail := "false";
      case KTrue => Write("true", 5);
        tail := "true";
      case KNumber =>
        var size, text := NumberText(item.valuedouble);
        Write(text, size);
        tail := text;
      case KString => PrintString(item.valuestring);
        tail := Quote(item.valuestring);
      case KArray => tail := PrintArray(item, depth, fmt);
      case KObject => out, tail := PrintObject(item, depth, fmt);
    }

    method PrintArray(item: CJson, depth: nat, fmt: bool) returns (ghost tail: string)
      requires item.Valid() && item.kind == KArray && Printable(item.View())
      requires Valid() && Fits(|Print(item.View(), depth, fmt)|)
      modifies this, buffer
      ensures Shows(old(Done()) + Print(old(item.View()), depth, fmt), tail) && (buffer == old(buffer) || fresh(buffer))
      ensures item.Valid() && item.View() == old(item.View())
      decreases item.Repr, 2
    {
      hide CJson.Valid, Chain, Apart, Holds, Print, PrintItems;
      ghost var items := item.ItemsFrom(0);
      AlongKids(item, 0);
      ArrayParts(Done(), items, depth, fmt);
      if item.child == null {
        tail := "[]";
        Write("[]", 3);
      } else {
        Append("[", 0);
        PutItems(item, items, depth, fmt);
        tail := "]";
        Write("]", 2);
      }
    }

    /** The loop of `print_array`. */
    method PutItems(item: CJson, ghost items: Items, depth: nat, fmt: bool)
      requires item.Valid() && item.ItemsFrom(0) == items && PrintableItems(items)
      requires Valid() && Fits(|PrintItems(items, depth, fmt)|)
      modifies this, buffer
      ensures Valid() && Done() == old(Done()) + PrintItems(items, depth, fmt)
        && (buffer == old(buffer) || fresh(buffer))
      ensures item.Valid() && item.ItemsFrom(0) == items
      decreases item.Repr, 1
    {
      hide CJson.Valid, Chain, Apart, Print, PrintBuffer.Fits;
      ghost var want := Done() + PrintItems(items, depth, fmt);
      ghost var rest, i := items, 0;
      var child := item.child;
      AlongKids(item, 0);
      while child != null
        invariant Valid() && (buffer == old(buffer) || fresh(buffer))
        invariant item.Valid() && i <= |item.kids| && child == NodeAt(item.kids, i) && item.ItemsFrom(i) == rest
        invariant item.ItemsFrom(0) == items
        invariant PrintableItems(rest) && Fits(|PrintItems(rest, depth, fmt)|)
        invariant Done() + PrintItems(rest, depth, fmt) == want
        decreases rest
      {
        AlongKids(item, i);
        PutItem(item, child, i, rest, depth, fmt);
        child := child.next;
        rest, i := rest.next, i + 1;
      }
    }

    /** One item, and the comma behind it. */
    method PutItem(item: CJson, child: CJson, ghost i: nat, ghost rest: Items, depth: nat, fmt: bool)
      requires item.Valid() && i < |item.kids| && child == item.kids[i] && item.ItemsFrom(i) == rest
      requires PrintableItems(rest) && Valid() && Fits(|PrintItems(rest, depth, fmt)|)
      modifies this, buffer
      ensures Valid() && (buffer == old(buffer) || fresh(buffer))
      ensures Done() + PrintItems(rest.next, depth, fmt) == old(Done()) + PrintItems(rest, depth, fmt)
      ensures Fits(|PrintItems(rest.next, depth, fmt)|)
      decreases item.Repr, 0
    {
      hide CJson.Valid, Chain, Apart, Print;
      AlongKids(item, i);
      ItemParts(Done(), rest, depth, fmt);
      var out;
      ghost var tail;
      out, tail := PrintValue(child, depth + 1, fmt);
      Update(tail);
      if child.next != null {
        Append(Comma(fmt), 1);
      }
    }

    method PrintObject(item: CJson, depth: nat, fmt: bool) returns (out: nat, ghost tail: string)
      requires item.Valid() && item.kind == KObject && Printable(item.View())
      requires Valid() && Fits(|Print(item.View(), depth, fmt)|)
      modifies this, buffer
      ensures Shows(old(Done()) + Print(old(item.View()), depth, fmt), tail) && (buffer == old(buffer) || fresh(buffer))
      ensures out == if item.child != null && fmt then depth else old(offset)
      ensures item.Valid() && item.View() == old(item.View())
      decreases item.Repr, 2
    {
      hide CJson.Valid, Chain, Apart, Holds;
      out := offset;
      ghost var members := item.MembersFrom(0);
      AlongKids(item, 0);
      if item.child == null {
        tail := Print(Object(NoMember), depth, fmt);
        PrintEmpty(depth, fmt);
      } else {
        tail := PrintFilled(item, members, depth, fmt);
        if fmt {
          out := depth;    // the index that counted the tabs is the one the result is computed from
        }
      }
    }

    method PrintFilled(item: CJson, ghost members: Members, depth: nat, fmt: bool) returns (ghost tail: string)
      requires item.Valid() && item.MembersFrom(0) == members && members.Member? && PrintableMembers(members)
      requires Valid() && Fits(|Print(Object(members), depth, fmt)|)
      modifies this, buffer
      ensures Shows(old(Done()) + Print(Object(members), depth, fmt), tail) && (buffer == old(buffer) || fresh(buffer))
      ensures item.Valid() && item.MembersFrom(0) == members
      decreases item.Repr, 1, 1
    {
      hide CJson.Valid, Chain, Apart, Print, PrintMembers, Tabs, Holds;
      ghost var before := Done();
      ghost var open, body := if fmt then "{\n" else "{", PrintMembers(members, depth + 1, fmt);
      tail := (if fmt then Tabs(depth) else "") + "}";
      ObjectParts(before, open, body, tail, members, depth, fmt);
      Append(if fmt then "{\n" else "{", 1);
      PutMembers(item, members, depth + 1, fmt);
      WriteClose(depth + 1, fmt);
    }

    /** The loop of `print_object`; `depth` counts the object itself. */
    method PutMembers(item: CJson, ghost members: Members, depth: nat, fmt: bool)
      requires item.Valid() && item.MembersFrom(0) == members && PrintableMembers(members)
      requires Valid() && depth > 0 && Fits(|PrintMembers(members, depth, fmt)|)
      modifies this, buffer
      ensures Valid() && (buffer == old(buffer) || fresh(buffer))
      ensures Done() == old(Done()) + PrintMembers(members, depth, fmt)
      ensures item.Valid() && item.MembersFrom(0) == members
      decreases item.Repr, 1, 0
    {
      hide CJson.Valid, Chain, Apart, Print, Quote, Tabs, PrintBuffer.Fits;
      ghost var want := Done() + PrintMembers(members, depth, fmt);
      ghost var rest, i := members, 0;
      var child := item.child;
      AlongKids(item, 0);
      while child != null
        invariant Valid() && (buffer == old(buffer) || fresh(buffer))
        invariant item.Valid() && i <= |item.kids| && child == NodeAt(item.kids, i) && item.MembersFrom(i) == rest
        invariant item.MembersFrom(0) == members
        invariant PrintableMembers(rest) && Fits(|PrintMembers(rest, depth, fmt)|)
        invariant Done() + PrintMembers(rest, depth, fmt) == want
        decreases rest
      {
        AlongKids(item, i);
        PutPair(item, child, i, rest, depth, fmt);
        child := child.next;
        rest, i := rest.after, i + 1;
      }
    }

    /** The indentation, the name and the colon. */
    method PutName(key: string, depth: nat, fmt: bool)
      requires Valid() && depth > 0 && NulFree(key)
      requires Fits(|if fmt then Tabs(depth) else ""| + |Quote(key)| + |if fmt then ":\t" else ":"|)
      modifies this, buffer
      ensures Valid() && (buffer == old(buffer) || fresh(buffer))
      ensures Done() == old(Done()) + (if fmt then Tabs(depth) else "") + Quote(key) + (if fmt then ":\t" else ":")
    {
      ghost var before := Done();
      if fmt {
        PutIndent(depth);
      }
      assert Done() == before + (if fmt then Tabs(depth) else "");
      PrintString(key);
      Update(Quote(key));
      Append(if fmt then ":\t" else ":", 0);
    }

    /** One member: tabs, name, colon, value, comma and line end. */
    method PutPair(item: CJson, child: CJson, ghost i: nat, ghost rest: Members, depth: nat, fmt: bool)
      requires item.Valid() && i < |item.kids| && child == item.kids[i] && item.MembersFrom(i) == rest
      requires PrintableMembers(rest) && Valid() && depth > 0 && Fits(|PrintMembers(rest, depth, fmt)|)
      modifies this, buffer
      ensures Valid() && (buffer == old(buffer) || fresh(buffer))
      ensures Done() + PrintMembers(rest.after, depth, fmt) == old(Done()) + PrintMembers(rest, depth, fmt)
      ensures Fits(|PrintMembers(rest.after, depth, fmt)|)
      decreases item.Repr, 0
    {
      hide CJson.Valid, Chain, Apart, Print, Quote, Tabs;
      AlongKids(item, i);
      PairParts(Done(), if fmt then Tabs(depth) else "", Quote(rest.key), if fmt then ":\t" else ":",
        Print(rest.value, depth, fmt), (if rest.after.NoMember? then "" else ",") + (if fmt then "\n" else ""),
        PrintMembers(rest.after, depth, fmt), rest, depth, fmt);
      PutName(child.key, depth, fmt);
      var out;
      ghost var tail;
      out, tail := PrintValue(child, depth, fmt);
      Update(tail);
      Append((if child.next == null then "" else ",") + (if fmt then "\n" else ""), 1);
    }

    /** `ptr = ensure(p, depth); for (j = 0; j < depth; j++) *ptr++ = '\t'; p->offset += depth;` */
    method PutIndent(depth: nat)
      requires Valid() && depth > 0 && Fits(|Tabs(depth)|)
      modifies this, buffer
      ensures Valid() && Done() == old(Done()) + Tabs(depth) && (buffer == old(buffer) || fresh(buffer))
    {
      TabsAre(depth);
      var ptr := Ensure(depth);
      var k := PutTabs(buffer, ptr, depth);
      offset := offset + depth;
    }

    /** The terminator behind a text put at the offset. */
    method Seal(k: nat, ghost s: string)
      requires Valid() && NulFree(s) && offset + |s| == k < length && buffer[..k] == Done() + s
      modifies buffer
      ensures Done() == old(Done()) && Holds(buffer[..], offset, s)
    {
      assert buffer[offset..k] == buffer[..k][offset..] == s;
      Terminate(buffer, offset, k, s);
      assert buffer[..offset] == buffer[..k][..offset];
    }

    /** The closing brace of an object; `depth` counts the object itself. */
    method WriteClose(depth: nat, fmt: bool)
      requires Valid() && depth > 0 && Fits(|(if fmt then Tabs(depth - 1) else "") + "}"|)
      modifies this, buffer
      ensures Valid() && offset == old(offset) && Done() == old(Done()) && (buffer == old(buffer) || fresh(buffer))
      ensures Holds(buffer[..], offset, (if fmt then Tabs(depth - 1) else "") + "}")
    {
      hide Tabs, NulFree;
      CloseText(depth - 1, fmt);
      var ptr := Ensure(if fmt then depth + 1 else 2);
      var k := PutClose(buffer, ptr, depth, fmt);
      Seal(k, (if fmt then Tabs(depth - 1) else "") + "}");
    }

    /** The empty object. */
    method PrintEmpty(depth: nat, fmt: bool)
      requires Valid() && Fits(|Print(Object(NoMember), depth, fmt)|)
      modifies this, buffer
      ensures Valid() && offset == old(offset) && Done() == old(Done()) && (buffer == old(buffer) || fresh(buffer))
      ensures Holds(buffer[..], offset, Print(Object(NoMember), depth, fmt))
    {
      hide Tabs, NulFree, Print;
      CloseText(depth - 1, fmt);
      ghost var before, open, close := Done(), if fmt then "{\n" else "{", (if fmt then Tabs(depth - 1) else "") + "}";
      EmptyParts(before, open, close, depth, fmt);
      var ptr := Ensure(if fmt then depth + 4 else 3);
      var k := Put(buffer, ptr, if fmt then "{\n" else "{");
      k := PutClose(buffer, k, depth, fmt);
      Seal(k, Print(Object(NoMember), depth, fmt));
    }
  }

  lemma CloseText(n: int, fmt: bool)
    ensures var c := (if fmt then Tabs(n) else "") + "}"; |c| == (if fmt && n > 0 then n else 0) + 1 && NulFree(c)
  {
    TabsAre(n);
    TabsNulFree(n);
    hide Tabs;
  }

  lemma EmptyParts(before: string, open: string, close: string, depth: nat, fmt: bool)
    requires open == (if fmt then "{\n" else "{") && close == (if fmt then Tabs(depth - 1) else "") + "}"
    ensures before + Print(Object(NoMember), depth, fmt) == before + open + close
    ensures |Print(Object(NoMember), depth, fmt)| == |open| + |close|
    ensures NulFree(Print(Object(NoMember), depth, fmt))
  {
    assert Print(Object(NoMember), depth, fmt) == open + close;
    ObjectNulFree(NoMember, depth, fmt);
  }

  lemma ArrayParts(before: string, items: Items, depth: nat, fmt: bool)
    ensures Print(Array(items), depth, fmt) == "[" + PrintItems(items, depth, fmt) + "]"
    ensures items.NoItem? ==> Print(Array(items), depth, fmt) == "[]"
    ensures before + Print(Array(items), depth, fmt) == before + "[" + PrintItems(items, depth, fmt) + "]"
    ensures |Print(Array(items), depth, fmt)| == |PrintItems(items, depth, fmt)| + 2
  {
    Seqs.Assoc(before, "[", PrintItems(items, depth, fmt));
    Seqs.Assoc(before, "[" + PrintItems(items, depth, fmt), "]");
  }

  lemma ObjectParts(before: string, open: string, body: string, close: string, members: Members, depth: nat, fmt: bool)
    requires members.Member? && open == (if fmt then "{\n" else "{") && body == PrintMembers(members, depth + 1, fmt)
    requires close == (if fmt then Tabs(depth) else "") + "}"
    ensures before + Print(Object(members), depth, fmt) == before + open + body + close
    ensures |Print(Object(members), depth, fmt)| == |open| + |body| + |close|
  {
    assert open == "{" + (if fmt then "\n" else "");
    Seqs.Assoc(open + body, if fmt then Tabs(depth) else "", "}");
    assert Print(Object(members), depth, fmt) == open + body + close;
    assert before + (open + body + close) == before + open + body + close;
  }

  lemma ItemParts(before: string, child: Items, depth: nat, fmt: bool)
    requires child.Item?
    ensures before + PrintItems(child, depth, fmt)
      == before + Print(child.head, depth + 1, fmt) + (if child.next.NoItem? then "" else Comma(fmt))
        + PrintItems(child.next, depth, fmt)
    ensures child.next.NoItem? ==>
      before + PrintItems(child, depth, fmt)
        == before + Print(child.head, depth + 1, fmt) + PrintItems(child.next, depth, fmt)
    ensures |PrintItems(child, depth, fmt)|
      == |Print(child.head, depth + 1, fmt)| + (if child.next.NoItem? then 0 else |Comma(fmt)|)
        + |PrintItems(child.next, depth, fmt)|
  {
    var text, after := Print(child.head, depth + 1, fmt), PrintItems(child.next, depth, fmt);
    if child.next.Item? {
      Seqs.Assoc(before, text, Comma(fmt));
      Seqs.Assoc(before + text, Comma(fmt), after);
      Seqs.Assoc(before, text, Comma(fmt) + after);
    } else {
      assert before + (text + "") == before + text + "" + "" && before + (text + "") == before + text + "";
    }
  }

  lemma PairParts(before: string, a: string, b: string, c: string, d: string, e: string, after: string,
                  child: Members, depth: nat, fmt: bool)
    requires child.Member?
    requires a == (if fmt then Tabs(depth) else "") && b == Quote(child.key) && c == (if fmt then ":\t" else ":")
    requires d == Print(child.value, depth, fmt) && after == PrintMembers(child.after, depth, fmt)
    requires e == (if child.after.NoMember? then "" else ",") + (if fmt then "\n" else "")
    ensures before + PrintMembers(child, depth, fmt) == before + a + b + c + d + e + after
    ensures |PrintMembers(child, depth, fmt)| == |a| + |b| + |c| + |d| + |e| + |after|
  {
    var m, n := if child.after.NoMember? then "" else ",", if fmt then "\n" else "";
    assert PrintMembers(child, depth, fmt) == a + b + c + d + m + n + after;
    Seqs.Assoc(a + b + c + d, m, n);
    Regroup6(before, a, b, c, d, e, after);
  }

  /** `cJSON_PrintBuffered` */
  method PrintBuffered(item: CJson, prebuffer: nat, fmt: bool) returns (p: PrintBuffer, out: nat)
    requires item.Valid() && Printable(item.View()) && prebuffer > 0
    requires |Print(item.View(), 0, fmt)| + SLACK <= MAX_SIZE
    ensures fresh(p) && out == 0 && HasCStr(p.buffer[..], out)
    ensures CStr(p.buffer[..], out) == Print(old(item.View()), 0, fmt)
  {
    hide CJson.Valid, CJson.View, Print, Printable;
    p := new PrintBuffer(prebuffer);
    ghost var text := Print(item.View(), 0, fmt);
    PrintNulFree(item.View(), 0, fmt);
    ghost var tail;
    out, tail := p.PrintValue(item, 0, fmt);
    assert p.buffer[..][0..|text|] == p.Done() + tail;
    CStrIs(p.buffer[..], 0, text);
  }
}
