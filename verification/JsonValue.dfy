/** JSON values, the abstract contents of a cJSON tree, and their printed text. */
module JsonValue {
  import opened Bytes

  datatype Json =
    | Null
    | False
    | True
    | Number(d: real)
    | String(s: bytes)
    | Array(elems: seq<Json>)
    | Object(members: seq<Member>)

  datatype Member = Member(key: bytes, value: Json)

  // Character codes.
  const QUOTE: byte := 0x22
  const BACKSLASH: byte := 0x5c
  const SLASH: byte := 0x2f
  const STAR: byte := 0x2a
  const COMMA: byte := 0x2c
  const COLON: byte := 0x3a
  const LBRACKET: byte := 0x5b
  const RBRACKET: byte := 0x5d
  const LBRACE: byte := 0x7b
  const RBRACE: byte := 0x7d
  const SPACE: byte := 0x20
  const TAB: byte := 0x09
  const NEWLINE: byte := 0x0a
  const RETURN: byte := 0x0d
  const BELL_B: byte := 0x08
  const FORMFEED: byte := 0x0c
  const MINUS: byte := 0x2d
  const PLUS: byte := 0x2b
  const DOT: byte := 0x2e
  const ZERO: byte := 0x30

  const NULL_TEXT: bytes := [0x6e, 0x75, 0x6c, 0x6c]
  const TRUE_TEXT: bytes := [0x74, 0x72, 0x75, 0x65]
  const FALSE_TEXT: bytes := [0x66, 0x61, 0x6c, 0x73, 0x65]

  /** A number that print_number writes with "%d". */
  predicate IsInt(d: real) {
    d == d.Floor as real && INT_MIN <= d.Floor <= INT_MAX
  }

  /** Values with C strings for strings and int-range integers for numbers. */
  predicate Plain(v: Json) {
    match v
    case Number(d) => IsInt(d)
    case String(s) => NulFree(s)
    case Array(es) => PlainElems(es)
    case Object(ms) => PlainMembers(ms)
    case _ => true
  }

  predicate PlainElems(es: seq<Json>) {
    es == [] || (Plain(es[0]) && PlainElems(es[1..]))
  }

  predicate PlainMembers(ms: seq<Member>) {
    ms == [] || (NulFree(ms[0].key) && Plain(ms[0].value) && PlainMembers(ms[1..]))
  }

  /** How deeply arrays and objects are nested. */
  function Depth(v: Json): nat {
    match v
    case Array(es) => 1 + DepthElems(es)
    case Object(ms) => 1 + DepthMembers(ms)
    case _ => 0
  }

  function DepthElems(es: seq<Json>): nat {
    if es == [] then 0
    else
      var a, b := Depth(es[0]), DepthElems(es[1..]);
      if a > b then a else b
  }

  function DepthMembers(ms: seq<Member>): nat {
    if ms == [] then 0
    else
      var a, b := Depth(ms[0].value), DepthMembers(ms[1..]);
      if a > b then a else b
  }

  // ----- the printed text -----

  /** The decimal digits of `n`, without leading zeros. */
  function Digits(n: nat): (s: bytes)
    ensures |s| >= 1
  {
    if n < 10 then [ZERO + n] else Digits(n / 10) + [ZERO + n % 10]
  }

  /** What sprintf writes for "%d". */
  function Decimal(i: int): (s: bytes)
    ensures |s| >= 1
  {
    if i < 0 then [MINUS] + Digits(-i) else Digits(i)
  }

  function HexDigit(n: nat): byte
    requires n < 16
  {
    if n < 10 then ZERO + n else 0x61 + n - 10
  }

  /** One byte inside a printed string. */
  function EscapeByte(b: byte): (s: bytes)
    ensures |s| >= 1
  {
    if b > 31 && b != QUOTE && b != BACKSLASH then [b]
    else if b == BACKSLASH then [BACKSLASH, BACKSLASH]
    else if b == QUOTE then [BACKSLASH, QUOTE]
    else if b == BELL_B then [BACKSLASH, 0x62]
    else if b == FORMFEED then [BACKSLASH, 0x66]
    else if b == NEWLINE then [BACKSLASH, 0x6e]
    else if b == RETURN then [BACKSLASH, 0x72]
    else if b == TAB then [BACKSLASH, 0x74]
    else [BACKSLASH, 0x75, ZERO, ZERO, HexDigit(b / 16), HexDigit(b % 16)]
  }

  function Escape(s: bytes): bytes {
    if s == [] then [] else EscapeByte(s[0]) + Escape(s[1..])
  }

  function Quoted(s: bytes): bytes {
    [QUOTE] + Escape(s) + [QUOTE]
  }

  function Tabs(n: nat): (s: bytes)
    ensures |s| == n
    ensures forall i :: 0 <= i < n ==> s[i] == TAB
  {
    if n == 0 then [] else [TAB] + Tabs(n - 1)
  }

  /** The text of `v` printed at nesting `depth`, formatted or not. */
  function Text(v: Json, fmt: bool, depth: nat): (s: bytes)
    ensures |s| >= 1
  {
    match v
    case Null => NULL_TEXT
    case False => FALSE_TEXT
    case True => TRUE_TEXT
    case Number(d) => Decimal(d.Floor)
    case String(s) => Quoted(s)
    case Array(es) => [LBRACKET] + ElemsText(es, fmt, depth + 1) + [RBRACKET]
    case Object(ms) =>
      [LBRACE] + (if fmt then [NEWLINE] else []) + MembersText(ms, fmt, depth + 1)
      + (if fmt then Tabs(depth) else []) + [RBRACE]
  }

  function Separator(fmt: bool): bytes {
    if fmt then [COMMA, SPACE] else [COMMA]
  }

  function ElemsText(es: seq<Json>, fmt: bool, depth: nat): bytes {
    if es == [] then []
    else Text(es[0], fmt, depth) + (if |es| > 1 then Separator(fmt) else []) + ElemsText(es[1..], fmt, depth)
  }

  /** One member with what precedes its value. */
  function KeyText(key: bytes, fmt: bool, depth: nat): bytes {
    (if fmt then Tabs(depth) else []) + Quoted(key) + (if fmt then [COLON, TAB] else [COLON])
  }

  /** What follows the value of a member. */
  function MemberEnd(last: bool, fmt: bool): bytes {
    (if last then [] else [COMMA]) + (if fmt then [NEWLINE] else [])
  }

  function MembersText(ms: seq<Member>, fmt: bool, depth: nat): bytes {
    if ms == [] then []
    else
      KeyText(ms[0].key, fmt, depth) + Text(ms[0].value, fmt, depth) + MemberEnd(|ms| == 1, fmt)
      + MembersText(ms[1..], fmt, depth)
  }
}
