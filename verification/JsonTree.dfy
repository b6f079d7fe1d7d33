/** JSON trees and the text a tree prints to. */
module JsonTree {
  import opened Bytes
  import opened Decimal

  const QUOTE: byte := 34
  const BACKSLASH: byte := 92
  const COMMA: byte := 44
  const COLON: byte := 58
  const OPEN_BRACKET: byte := 91
  const CLOSE_BRACKET: byte := 93
  const OPEN_BRACE: byte := 123
  const CLOSE_BRACE: byte := 125
  const TAB: byte := 9
  const NULL_TEXT: Text := [110, 117, 108, 108]
  const FALSE_TEXT: Text := [102, 97, 108, 115, 101]
  const TRUE_TEXT: Text := [116, 114, 117, 101]

  /** Arrays and objects deeper than this are rejected by the parser. */
  const NESTING_LIMIT := 1000

  datatype Json =
    | Null
    | False
    | True
    | Number(n: real)
    | String(s: Text)
    | Array(items: seq<Json>)
    | Object(members: seq<Member>)

  datatype Member = Member(key: Text, value: Json)

  /** The whitespace the printer puts between tokens. */
  datatype Layout = Layout(afterComma: Text, afterOpen: Text, indent: Text, afterColon: Text, afterMember: Text)

  const FORMATTED := Layout([SPACE], [NEWLINE], [TAB], [TAB], [NEWLINE])
  const UNFORMATTED := Layout([], [], [], [], [])

  function LayoutOf(format: bool): Layout {
    if format then FORMATTED else UNFORMATTED
  }

  // ---- strings --------------------------------------------------------------

  function EscapeByte(b: byte): (s: Text)
    ensures 1 <= |s| <= 6
  {
    if b > 31 && b != QUOTE && b != BACKSLASH then [b]
    else if b == BACKSLASH then [BACKSLASH, BACKSLASH]
    else if b == QUOTE then [BACKSLASH, QUOTE]
    else if b == 8 then [BACKSLASH, 98]
    else if b == 12 then [BACKSLASH, 102]
    else if b == 10 then [BACKSLASH, 110]
    else if b == 13 then [BACKSLASH, 114]
    else if b == 9 then [BACKSLASH, 116]
    else [BACKSLASH, 117, 48, 48, HexDigit(b / 16), HexDigit(b % 16)]
  }

  function Escape(s: Text): Text {
    if s == [] then [] else EscapeByte(s[0]) + Escape(s[1..])
  }

  function Quote(s: Text): Text {
    [QUOTE] + Escape(s) + [QUOTE]
  }

  // ---- values ---------------------------------------------------------------

  /** The integers that "%1.15g" prints digit by digit. */
  predicate PrintableNumber(n: real) {
    n == n.Floor as real && -1000000000000000 < n.Floor < 1000000000000000
  }

  function NumberText(n: real): Text {
    IntText(n.Floor)
  }

  function Repeat(s: Text, n: nat): Text {
    if n == 0 then [] else s + Repeat(s, n - 1)
  }

  /** The text of v when it is printed at nesting depth `depth`. */
  function Render(v: Json, L: Layout, depth: nat): Text
    decreases v, 0
  {
    match v
    case Null => NULL_TEXT
    case False => FALSE_TEXT
    case True => TRUE_TEXT
    case Number(n) => NumberText(n)
    case String(s) => Quote(s)
    case Array(items) => [OPEN_BRACKET] + RenderItems(items, L, depth + 1) + [CLOSE_BRACKET]
    case Object(members) =>
      [OPEN_BRACE] + L.afterOpen + RenderMembers(members, L, depth + 1) + Repeat(L.indent, depth) + [CLOSE_BRACE]
  }

  function Separator(more: bool, after: Text): Text {
    if more then [COMMA] + after else []
  }

  function RenderItems(items: seq<Json>, L: Layout, depth: nat): Text
    decreases items, 1
  {
    if items == [] then []
    else Render(items[0], L, depth) + Separator(|items| > 1, L.afterComma) + RenderItems(items[1..], L, depth)
  }

  function RenderMember(m: Member, L: Layout, depth: nat): Text
    decreases m, 1
  {
    Repeat(L.indent, depth) + Quote(m.key) + [COLON] + L.afterColon + Render(m.value, L, depth)
  }

  function RenderMembers(members: seq<Member>, L: Layout, depth: nat): Text
    decreases members, 2
  {
    if members == [] then []
    else
      RenderMember(members[0], L, depth)
      + (Separator(|members| > 1, []) + L.afterMember)
      + RenderMembers(members[1..], L, depth)
  }

  // ---- shape ----------------------------------------------------------------

  function Max(a: nat, b: nat): nat {
    if a < b then b else a
  }

  /** How many arrays and objects are nested in v, v included. */
  function Height(v: Json): nat
    decreases v, 0
  {
    match v
    case Array(items) => 1 + HeightOfItems(items)
    case Object(members) => 1 + HeightOfMembers(members)
    case _ => 0
  }

  function HeightOfItems(items: seq<Json>): nat
    decreases items, 1
  {
    if items == [] then 0 else Max(Height(items[0]), HeightOfItems(items[1..]))
  }

  function HeightOfMembers(members: seq<Member>): nat
    decreases members, 1
  {
    if members == [] then 0 else Max(Height(members[0].value), HeightOfMembers(members[1..]))
  }

  /** Every string and key is a C string and every number prints as an integer. */
  predicate Printable(v: Json)
    decreases v, 0
  {
    match v
    case Number(n) => PrintableNumber(n)
    case String(s) => NulFree(s)
    case Array(items) => PrintableItems(items)
    case Object(members) => PrintableMembers(members)
    case _ => true
  }

  predicate PrintableItems(items: seq<Json>)
    decreases items, 1
  {
    items == [] || (Printable(items[0]) && PrintableItems(items[1..]))
  }

  predicate PrintableMembers(members: seq<Member>)
    decreases members, 1
  {
    members == [] || (NulFree(members[0].key) && Printable(members[0].value) && PrintableMembers(members[1..]))
  }
}
