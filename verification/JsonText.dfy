/** The JSON tree and its text, as `cJSON_Print` and `cJSON_PrintUnformatted` define it. */
module JsonText {
  import opened CText

  /** A cJSON item: the child list of an array or object is a chain of `next` links. */
  datatype Json =
    | Null
    | False
    | True
    | Number(valuedouble: real)
    | String(valuestring: string)
    | Array(items: Items)
    | Object(members: Members)

  datatype Items = NoItem | Item(head: Json, next: Items)

  datatype Members = NoMember | Member(key: string, value: Json, after: Members)

  const INT_MAX := 0x7fff_ffff
  const INT_MIN := -0x8000_0000

  predicate IsInt32(d: real) {
    d == d.Floor as real && INT_MIN <= d.Floor <= INT_MAX
  }

  /** The trees whose text is modelled: int32 numbers and C strings. */
  predicate Printable(v: Json) {
    match v
    case Number(d) => IsInt32(d)
    case String(s) => NulFree(s)
    case Array(items) => PrintableItems(items)
    case Object(members) => PrintableMembers(members)
    case _ => true
  }

  predicate PrintableItems(items: Items) {
    items.NoItem? || (Printable(items.head) && PrintableItems(items.next))
  }

  predicate PrintableMembers(members: Members) {
    members.NoMember? ||
    (NulFree(members.key) && Printable(members.value) && PrintableMembers(members.after))
  }

  // ----- numbers -----

  /** Decimal digits of `n`, most significant first. */
  function Digits(n: nat): (s: string)
    ensures |s| > 0 && IsDigit(s[0])
  {
    if n < 10 then [DigitChar(n)] else Digits(n / 10) + [DigitChar(n % 10)]
  }

  /** `sprintf("%d", n)` */
  function ShowInt(n: int): (s: string)
    ensures |s| > 0
  {
    if n < 0 then "-" + Digits(-n) else Digits(n)
  }

  // ----- strings -----

  function HexDigit(n: int): char
    requires 0 <= n < 16
  {
    if n < 10 then ('0' as int + n) as char else ('a' as int + n - 10) as char
  }

  /** `sprintf("u%04x", c)` for a control character. */
  function ControlEscape(c: char): string
    requires c < ' '
  {
    "u00" + [HexDigit(c as int / 16), HexDigit(c as int % 16)]
  }

  /** The escape of one character of a string. */
  function Escape(c: char): (s: string)
    ensures |s| > 0
  {
    if c == '\\' then "\\\\"
    else if c == '\"' then "\\\""
    else if c >= ' ' then [c]
    else if c == 8 as char then "\\b"
    else if c == 12 as char then "\\f"
    else if c == '\n' then "\\n"
    else if c == '\r' then "\\r"
    else if c == '\t' then "\\t"
    else "\\" + ControlEscape(c)
  }

  function EscapeAll(s: string): string {
    if s == "" then "" else Escape(s[0]) + EscapeAll(s[1..])
  }

  function Quote(s: string): string {
    "\"" + EscapeAll(s) + "\""
  }

  // ----- values -----

  function Tabs(n: int): string {
    if n <= 0 then "" else "\t" + Tabs(n - 1)
  }

  function Print(v: Json, depth: nat, fmt: bool): string {
    match v
    case Null => "null"
    case False => "false"
    case True => "true"
    case Number(d) => ShowInt(d.Floor)
    case String(s) => Quote(s)
    case Array(items) => "[" + PrintItems(items, depth, fmt) + "]"
    case Object(members) =>
      if members.NoMember? then "{" + (if fmt then "\n" + Tabs(depth - 1) else "") + "}"
      else
        "{" + (if fmt then "\n" else "")
        + PrintMembers(members, depth + 1, fmt)
        + (if fmt then Tabs(depth) else "") + "}"
  }

  function Comma(fmt: bool): string {
    if fmt then ", " else ","
  }

  function PrintItems(items: Items, depth: nat, fmt: bool): string {
    match items
    case NoItem => ""
    case Item(head, next) =>
      Print(head, depth + 1, fmt)
      + (if next.NoItem? then "" else Comma(fmt) + PrintItems(next, depth, fmt))
  }

  function PrintMembers(members: Members, depth: nat, fmt: bool): string {
    match members
    case NoMember => ""
    case Member(key, value, after) =>
      (if fmt then Tabs(depth) else "") + Quote(key) + (if fmt then ":\t" else ":")
      + Print(value, depth, fmt)
      + (if after.NoMember? then "" else ",") + (if fmt then "\n" else "")
      + PrintMembers(after, depth, fmt)
  }
}
