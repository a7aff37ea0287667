/** JSON values as trees, and the text the library prints for them. */
module Json {
  import opened Bytes
  import opened Items
  import opened Quotes

  datatype Json =
    | Null
    | Boolean(b: bool)
    | Number(n: int)
    | String(text: seq<byte>)
    | Array(items: seq<Json>)
    | Object(members: seq<Entry<Json>>)

  const MAX_NESTING := 2048

  /** Integers below this magnitude are exact as doubles and are printed as plain digits. */
  const EXACT := 0x20_0000_0000_0000

  /** Names are distinct in every object and numbers are exact integers. */
  ghost predicate WellFormed(v: Json) {
    match v
    case Number(n) => -EXACT < n < EXACT
    case Array(items) => forall i :: 0 <= i < |items| ==> WellFormed(items[i])
    case Object(members) => Distinct(members) && forall i :: 0 <= i < |members| ==> WellFormed(members[i].value)
    case _ => true
  }

  lemma PutKeepsWellFormed(members: seq<Entry<Json>>, name: CString, v: Json)
    requires WellFormed(Object(members)) && WellFormed(v)
    ensures WellFormed(Object(Put(members, name, v)))
  {
    LookupAfterPut(members, name, v, name);
  }

  function Max(a: int, b: int): int {
    if a > b then a else b
  }

  /** The number of containers around the most deeply nested value. */
  function Height(v: Json): nat {
    match v
    case Array(items) => ItemsHeight(items)
    case Object(members) => MembersHeight(members)
    case _ => 0
  }

  function ItemsHeight(items: seq<Json>): nat {
    if items == [] then 0 else Max(1 + Height(items[0]), ItemsHeight(items[1..]))
  }

  function MembersHeight(members: seq<Entry<Json>>): nat {
    if members == [] then 0 else Max(1 + Height(members[0].value), MembersHeight(members[1..]))
  }

  // --- Text ---

  const MINUS: byte := 0x2D
  const COMMA: byte := 0x2C
  const COLON: byte := 0x3A
  const SPACE: byte := 0x20
  const NEWLINE: byte := 0x0A
  const LBRACKET: byte := 0x5B
  const RBRACKET: byte := 0x5D
  const LBRACE: byte := 0x7B
  const RBRACE: byte := 0x7D
  const TRUE: CString := [0x74, 0x72, 0x75, 0x65]
  const FALSE: CString := [0x66, 0x61, 0x6C, 0x73, 0x65]
  const NULL: CString := [0x6E, 0x75, 0x6C, 0x6C]

  datatype Style = Style(pretty: bool, slashes: bool)

  function Decimal(n: nat): (d: CString)
    ensures 1 <= |d|
  {
    if n < 10 then [0x30 + n] else Decimal(n / 10) + [0x30 + n % 10]
  }

  function NumberText(n: int): CString {
    if n < 0 then [MINUS] + Decimal(-n) else Decimal(n)
  }

  function Indent(level: nat): CString {
    if level == 0 then [] else Indent(level - 1) + [SPACE, SPACE, SPACE, SPACE]
  }

  /** Layout that only pretty printing adds. */
  function Pretty(style: Style, layout: CString): CString {
    if style.pretty then layout else []
  }

  function Separator(last: bool, style: Style): CString {
    (if last then [] else [COMMA]) + Pretty(style, [NEWLINE])
  }

  /** The contents of a container on lines of their own between its brackets. */
  function Enclosed(left: byte, body: CString, right: byte, level: nat, style: Style): (t: CString)
    requires left != NUL && right != NUL
    ensures 1 <= |t|
  {
    [left] + Pretty(style, [NEWLINE]) + body + Pretty(style, Indent(level)) + [right]
  }

  function Text(v: Json, level: nat, style: Style): (t: CString)
    ensures 1 <= |t|
  {
    match v
    case Null => NULL
    case Boolean(b) => if b then TRUE else FALSE
    case Number(n) => NumberText(n)
    case String(text) => Quoted(text, style.slashes)
    case Array(items) =>
      if items == [] then [LBRACKET, RBRACKET]
      else Enclosed(LBRACKET, ItemsText(items, level + 1, style), RBRACKET, level, style)
    case Object(members) =>
      if members == [] then [LBRACE, RBRACE]
      else Enclosed(LBRACE, MembersText(members, level + 1, style), RBRACE, level, style)
  }

  function ItemsText(items: seq<Json>, level: nat, style: Style): CString {
    if items == [] then []
    else
      Pretty(style, Indent(level)) + Text(items[0], level, style) + Separator(|items| == 1, style)
      + ItemsText(items[1..], level, style)
  }

  function MembersText(members: seq<Entry<Json>>, level: nat, style: Style): CString {
    if members == [] then []
    else
      Pretty(style, Indent(level)) + MemberText(members[0], level, style) + Separator(|members| == 1, style)
      + MembersText(members[1..], level, style)
  }

  function MemberText(m: Entry<Json>, level: nat, style: Style): (t: CString)
    ensures 1 <= |t|
  {
    Quoted(m.name, style.slashes) + [COLON] + Pretty(style, [SPACE]) + Text(m.value, level, style)
  }
}
