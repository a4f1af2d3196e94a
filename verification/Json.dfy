/** JSON values, and the text that stands for each. */
module Json {
  import opened Octets

  /** A tree of cJSON items; an object keeps its members in order, as its child list does. */
  datatype Value =
    | Null
    | False
    | True
    | Number(n: int)
    | String(s: seq<Byte>)
    | Array(items: seq<Value>)
    | Object(members: seq<Member>)

  datatype Member = Member(name: seq<Byte>, value: Value)

  /** C strings hold no zero byte. */
  predicate NoZero(s: seq<Byte>) {
    forall i :: 0 <= i < |s| ==> s[i] != 0
  }

  /** A C string up to the zero byte that ends it, which is not counted in. */
  type CText = s: seq<Byte> | NoZero(s) witness []

  /** Numbers are C `int`s, and strings are C strings. */
  predicate Valid(v: Value) {
    match v
    case Number(n) => -0x8000_0000 <= n < 0x8000_0000
    case String(s) => NoZero(s)
    case Array(items) => forall i :: 0 <= i < |items| ==> Valid(items[i])
    case Object(members) => forall i :: 0 <= i < |members| ==> NoZero(members[i].name) && Valid(members[i].value)
    case _ => true
  }

  const TAB: Byte := 9
  const NEWLINE: Byte := 10
  const RETURN: Byte := 13
  const SPACE: Byte := 32
  const QUOTE: Byte := 34
  const COMMA: Byte := 44
  const MINUS: Byte := 45
  const DOT: Byte := 46
  const SLASH: Byte := 47
  const STAR: Byte := 42
  const ZERO: Byte := 48
  const COLON: Byte := 58
  const OPEN_ARRAY: Byte := 91
  const BACKSLASH: Byte := 92
  const CLOSE_ARRAY: Byte := 93
  const SMALL_U: Byte := 117
  const OPEN_OBJECT: Byte := 123
  const CLOSE_OBJECT: Byte := 125

  const NULL_TEXT: seq<Byte> := [110, 117, 108, 108]
  const FALSE_TEXT: seq<Byte> := [102, 97, 108, 115, 101]
  const TRUE_TEXT: seq<Byte> := [116, 114, 117, 101]

  // ----- text

  function Digits(n: nat): seq<Byte> {
    if n < 10 then [ZERO + n as Byte] else Digits(n / 10) + [ZERO + (n % 10) as Byte]
  }

  function NumberText(n: int): seq<Byte> {
    if n < 0 then [MINUS] + Digits(-n) else Digits(n)
  }

  function HexDigit(n: nat): Byte
    requires n < 16
  {
    if n < 10 then ZERO + n as Byte else 87 + n as Byte
  }

  /** The bytes that have an escape of their own, as the letter after the backslash. */
  function ShortEscape(c: Byte): Byte {
    if c == 8 then 98
    else if c == 12 then 102
    else if c == NEWLINE then 110
    else if c == RETURN then 114
    else if c == TAB then 116
    else if c == QUOTE || c == BACKSLASH then c
    else 0
  }

  function EscapeByte(c: Byte): seq<Byte> {
    if ShortEscape(c) != 0 then [BACKSLASH, ShortEscape(c)]
    else if c < 32 then [BACKSLASH, SMALL_U, ZERO, ZERO, HexDigit(c as int / 16), HexDigit(c as int % 16)]
    else [c]
  }

  function Escape(s: seq<Byte>): seq<Byte> {
    if s == [] then [] else EscapeByte(s[0]) + Escape(s[1..])
  }

  function StringText(s: seq<Byte>): seq<Byte> {
    [QUOTE] + (Escape(s) + [QUOTE])
  }

  function Tabs(n: int): seq<Byte> {
    if n <= 0 then [] else [TAB] + Tabs(n - 1)
  }

  function Comma(fmt: bool): seq<Byte> {
    if fmt then [COMMA, SPACE] else [COMMA]
  }

  function Colon(fmt: bool): seq<Byte> {
    if fmt then [COLON, TAB] else [COLON]
  }

  function LineEnd(fmt: bool): seq<Byte> {
    if fmt then [NEWLINE] else []
  }

  function Indent(fmt: bool, depth: int): seq<Byte> {
    if fmt then Tabs(depth) else []
  }

  /** The text of a value at a nesting depth, on indented lines or without any white space. */
  function Text(v: Value, depth: nat, fmt: bool): seq<Byte>
    decreases v, 1
  {
    match v
    case Null => NULL_TEXT
    case False => FALSE_TEXT
    case True => TRUE_TEXT
    case Number(n) => NumberText(n)
    case String(s) => StringText(s)
    case Array(items) => [OPEN_ARRAY] + (ItemsText(items, depth + 1, fmt) + [CLOSE_ARRAY])
    case Object(members) =>
      if members == [] then [OPEN_OBJECT] + (LineEnd(fmt) + (Indent(fmt, depth - 1) + [CLOSE_OBJECT]))
      else
        var inside := MembersText(members, depth + 1, fmt);
        [OPEN_OBJECT] + (LineEnd(fmt) + (inside + (Indent(fmt, depth) + [CLOSE_OBJECT])))
  }

  function ItemsText(items: seq<Value>, depth: nat, fmt: bool): seq<Byte>
    decreases items, 0
  {
    if items == [] then []
    else if |items| == 1 then Text(items[0], depth, fmt)
    else Text(items[0], depth, fmt) + (Comma(fmt) + ItemsText(items[1..], depth, fmt))
  }

  function MembersText(members: seq<Member>, depth: nat, fmt: bool): seq<Byte>
    decreases members, 0
  {
    if members == [] then []
    else
      MemberText(members[0], depth, fmt)
      + (if |members| == 1 then LineEnd(fmt) else [COMMA] + (LineEnd(fmt) + MembersText(members[1..], depth, fmt)))
  }

  function MemberText(m: Member, depth: nat, fmt: bool): seq<Byte>
    decreases m, 2
  {
    Indent(fmt, depth) + (StringText(m.name) + (Colon(fmt) + Text(m.value, depth, fmt)))
  }
}
