/** JSON trees and the text that the printer produces for them. */
module JsonText {
  import opened Basics

  const NUL: byte := '\0'
  const BACKSPACE: byte := '\U{08}'
  const FORM_FEED: byte := '\U{0C}'

  /** The characters of a NUL-terminated string, without the terminator. */
  type cstring = s: seq<byte> | NUL !in s

  type int32 = n: int | -0x8000_0000 <= n < 0x8000_0000

  /** An item and what hangs off it. `Items` and `Members` are the `next` chains of its children. */
  datatype Json =
    | Null
    | Bool(b: bool)
    | Num(n: int32)           // a number whose double value is an int
    | Real(text: cstring)     // any other number, known by its decimal text
    | Str(s: cstring)
    | Raw(text: cstring)
    | Arr(items: Items)
    | Obj(members: Members)

  datatype Items = INil | ICons(head: Json, tail: Items)

  datatype Members = MNil | MCons(key: cstring, val: Json, rest: Members)

  /** Containers nested inside one another, this one included. */
  function Depth(v: Json): nat {
    match v
    case Arr(items) => 1 + ItemsDepth(items)
    case Obj(members) => 1 + MembersDepth(members)
    case _ => 0
  }

  function ItemsDepth(items: Items): nat {
    match items
    case INil => 0
    case ICons(v, tail) => Max(Depth(v), ItemsDepth(tail))
  }

  function MembersDepth(members: Members): nat {
    match members
    case MNil => 0
    case MCons(_, v, rest) => Max(Depth(v), MembersDepth(rest))
  }

  function Max(a: nat, b: nat): nat { if a < b then b else a }

  /** Nodes of a tree, used as a termination measure. */
  function Size(v: Json): nat {
    match v
    case Arr(items) => 1 + ItemsSize(items)
    case Obj(members) => 1 + MembersSize(members)
    case _ => 1
  }

  function ItemsSize(items: Items): nat {
    match items
    case INil => 0
    case ICons(v, tail) => 1 + Size(v) + ItemsSize(tail)
  }

  function MembersSize(members: Members): nat {
    match members
    case MNil => 0
    case MCons(_, v, rest) => 1 + Size(v) + MembersSize(rest)
  }

  /** No raw text, and every number an int: the trees whose print is determined by RFC 8259 alone. */
  predicate Plain(v: Json) {
    match v
    case Real(_) => false
    case Raw(_) => false
    case Arr(items) => PlainItems(items)
    case Obj(members) => PlainMembers(members)
    case _ => true
  }

  predicate PlainItems(items: Items) {
    items.ICons? ==> Plain(items.head) && PlainItems(items.tail)
  }

  predicate PlainMembers(members: Members) {
    members.MCons? ==> Plain(members.val) && PlainMembers(members.rest)
  }

  // ---------- the printed text ----------

  function Digit(d: int): (c: byte)
    requires 0 <= d < 10
    ensures '0' <= c <= '9'
  {
    ('0' as int + d) as char
  }

  /** "%d" */
  function DecNat(n: nat): (t: seq<byte>)
    ensures |t| > 0 && forall i :: 0 <= i < |t| ==> '0' <= t[i] <= '9'
  {
    if n < 10 then [Digit(n)] else DecNat(n / 10) + [Digit(n % 10)]
  }

  function DecInt(n: int): (t: seq<byte>)
    ensures |t| > 0
  {
    if n < 0 then "-" + DecNat(-n) else DecNat(n)
  }

  function HexDigit(d: int): (c: byte)
    requires 0 <= d < 16
    ensures '0' <= c <= '9' || 'a' <= c <= 'f'
  {
    if d < 10 then ('0' as int + d) as char else ('a' as int + d - 10) as char
  }

  /** One byte of a string as it appears between the quotes. */
  function EscapeByte(c: byte): (t: seq<byte>)
    ensures 1 <= |t| <= 6
  {
    if c == '\"' then "\\\""
    else if c == '\\' then "\\\\"
    else if c == BACKSPACE then "\\b"
    else if c == FORM_FEED then "\\f"
    else if c == '\n' then "\\n"
    else if c == '\r' then "\\r"
    else if c == '\t' then "\\t"
    else if c < ' ' then "\\u00" + [HexDigit(c as int / 16), HexDigit(c as int % 16)]
    else [c]
  }

  function Escape(s: cstring): (t: seq<byte>)
  {
    if s == [] then [] else EscapeByte(s[0]) + Escape(s[1..])
  }

  function Quoted(s: cstring): (t: seq<byte>)
  {
    "\"" + Escape(s) + "\""
  }

  function Tabs(n: nat): (t: seq<byte>)
    ensures |t| == n && forall i :: 0 <= i < n ==> t[i] == '\t'
  {
    seq(n, _ => '\t')
  }

  /** `Opt(fmt, t)` is text that only formatted printing emits. */
  function Opt(b: bool, t: seq<byte>): (r: seq<byte>) { if b then t else "" }

  /** What is printed for `v` at nesting depth `depth`. */
  function Render(v: Json, fmt: bool, depth: nat): (t: seq<byte>)
    decreases v
  {
    match v
    case Null => "null"
    case Bool(b) => if b then "true" else "false"
    case Num(n) => DecInt(n)
    case Real(text) => text
    case Raw(text) => text
    case Str(s) => Quoted(s)
    case Arr(items) => "[" + RenderItems(items, fmt, depth + 1) + "]"
    case Obj(members) =>
      "{" + Opt(fmt, "\n") + RenderMembers(members, fmt, depth + 1) + Opt(fmt, Tabs(depth)) + "}"
  }

  function RenderItems(items: Items, fmt: bool, depth: nat): (t: seq<byte>)
    decreases items
  {
    match items
    case INil => ""
    case ICons(v, tail) =>
      Render(v, fmt, depth) + ItemSeparator(tail, fmt) + RenderItems(tail, fmt, depth)
  }

  function ItemSeparator(tail: Items, fmt: bool): (t: seq<byte>) {
    Opt(tail.ICons?, "," + Opt(fmt, " "))
  }

  function RenderMembers(members: Members, fmt: bool, depth: nat): (t: seq<byte>)
    decreases members
  {
    match members
    case MNil => ""
    case MCons(key, v, rest) =>
      Opt(fmt, Tabs(depth)) + Quoted(key) + ":" + Opt(fmt, "\t") + Render(v, fmt, depth)
      + MemberSeparator(rest, fmt) + RenderMembers(rest, fmt, depth)
  }

  function MemberSeparator(rest: Members, fmt: bool): (t: seq<byte>) {
    Opt(rest.MCons?, ",") + Opt(fmt, "\n")
  }
}
