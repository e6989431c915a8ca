/** JSON values as cJSON keeps them, and the text cJSON prints for them. */
module JsonText {
  import opened Bytes

  /**
   * A cJSON item: strings are C strings, numbers are kept as the token they are printed as, and the
   * children of arrays and objects form chains, like the source's child and next pointers.
   */
  datatype Json =
    | Null | False | True
    | Number(token: seq<byte>)
    | String(s: seq<byte>)
    | Array(items: Items)
    | Object(members: Members)

  datatype Items = NoItems | Item(value: Json, next: Items)
  datatype Members = NoMembers | Member(key: seq<byte>, value: Json, next: Members)

  const QUOTE: byte := 0x22
  const BACKSLASH: byte := 0x5c
  const COMMA: byte := 0x2c
  const COLON: byte := 0x3a
  const OPEN_ARRAY: byte := 0x5b
  const CLOSE_ARRAY: byte := 0x5d
  const OPEN_OBJECT: byte := 0x7b
  const CLOSE_OBJECT: byte := 0x7d
  const NEWLINE: byte := 0x0a
  const TAB: byte := 0x09
  const SPACE: byte := 0x20

  const NULL_TEXT: seq<byte> := [0x6e, 0x75, 0x6c, 0x6c]
  const FALSE_TEXT: seq<byte> := [0x66, 0x61, 0x6c, 0x73, 0x65]
  const TRUE_TEXT: seq<byte> := [0x74, 0x72, 0x75, 0x65]

  // ----- Strings -----

  function LowerHex(n: nat): byte
    requires n < 16
  {
    if n < 10 then 0x30 + n else 0x61 + n - 10
  }

  /** print_string_ptr for one byte. */
  function EscapeByte(b: byte): (e: seq<byte>)
    ensures 1 <= |e| <= 6
  {
    if b == BACKSLASH || b == QUOTE then [BACKSLASH, b]
    else if b == 0x08 then [BACKSLASH, 0x62]
    else if b == 0x0c then [BACKSLASH, 0x66]
    else if b == 0x0a then [BACKSLASH, 0x6e]
    else if b == 0x0d then [BACKSLASH, 0x72]
    else if b == 0x09 then [BACKSLASH, 0x74]
    else if b < 32 then [BACKSLASH, 0x75, 0x30, 0x30, LowerHex(b / 16), LowerHex(b % 16)]
    else [b]
  }

  function Escape(s: seq<byte>): (e: seq<byte>)
    ensures |e| >= |s|
  {
    if s == [] then [] else EscapeByte(s[0]) + Escape(s[1..])
  }

  function StringText(s: seq<byte>): seq<byte> {
    [QUOTE] + Escape(s) + [QUOTE]
  }

  // ----- Values -----

  function Tabs(n: nat): (t: seq<byte>)
    ensures |t| == n
  {
    seq(n, _ => TAB)
  }

  /** print_value at a nesting depth, formatted or not. */
  function Text(v: Json, depth: nat, format: bool): seq<byte> {
    match v
    case Null => NULL_TEXT
    case False => FALSE_TEXT
    case True => TRUE_TEXT
    case Number(token) => token
    case String(s) => StringText(s)
    case Array(items) => [OPEN_ARRAY] + ItemsText(items, depth + 1, format) + [CLOSE_ARRAY]
    case Object(members) =>
      [OPEN_OBJECT] + (if format then [NEWLINE] else []) + MembersText(members, depth + 1, format)
      + (if format then Tabs(depth) else []) + [CLOSE_OBJECT]
  }

  function ItemsText(items: Items, depth: nat, format: bool): seq<byte> {
    match items
    case NoItems => []
    case Item(v, next) =>
      Text(v, depth, format) + (if next.Item? then [COMMA] + (if format then [SPACE] else []) else [])
      + ItemsText(next, depth, format)
  }

  function MembersText(members: Members, depth: nat, format: bool): seq<byte> {
    match members
    case NoMembers => []
    case Member(key, v, next) =>
      (if format then Tabs(depth) else []) + StringText(key) + [COLON] + (if format then [TAB] else [])
      + Text(v, depth, format) + (if next.Member? then [COMMA] else []) + (if format then [NEWLINE] else [])
      + MembersText(next, depth, format)
  }

  lemma NoMembersText(depth: nat, format: bool)
    ensures MembersText(NoMembers, depth, format) == []
  {
  }

  // ----- The values the printer is meant for -----

  predicate IsNumberByte(b: byte) {
    0x30 <= b <= 0x39 || b == 0x2b || b == 0x2d || b == 0x2e || b == 0x65 || b == 0x45
  }

  predicate IsDigit(b: byte) {
    0x30 <= b <= 0x39
  }

  function Digits(s: seq<byte>): (n: nat)
    ensures n <= |s|
  {
    if s == [] || !IsDigit(s[0]) then 0 else 1 + Digits(s[1..])
  }

  /** How much of `t` strtod takes for a fraction, its point included. */
  function FractionLength(t: seq<byte>): (n: nat)
    ensures n <= |t|
  {
    if t != [] && t[0] == 0x2e then 1 + Digits(t[1..]) else 0
  }

  /** How much of `t` strtod takes for an exponent; a mark without digits is not taken. */
  function ExponentLength(t: seq<byte>): (n: nat)
    ensures n <= |t|
  {
    if t != [] && (t[0] == 0x65 || t[0] == 0x45) then
      var k := if 1 < |t| && (t[1] == 0x2b || t[1] == 0x2d) then 2 else 1;
      if Digits(t[k..]) == 0 then 0 else k + Digits(t[k..])
    else 0
  }

  /** How much of a run of number bytes strtod takes: a decimal floating-point literal, or nothing. */
  function StrtodLength(s: seq<byte>): (n: nat)
    ensures n <= |s|
  {
    var sign := if s != [] && (s[0] == 0x2b || s[0] == 0x2d) then 1 else 0;
    var whole := Digits(s[sign..]);
    var fraction := FractionLength(s[sign + whole..]);
    var mantissa := sign + whole + fraction;
    if whole == 0 && fraction <= 1 then 0 else mantissa + ExponentLength(s[mantissa..])
  }

  /** A number as printed: short enough for the parser's 64-byte scratch buffer, and wholly a literal. */
  predicate IsToken(t: seq<byte>) {
    && 0 < |t| <= 63 && (t[0] == 0x2d || IsDigit(t[0]))
    && (forall i :: 0 <= i < |t| ==> IsNumberByte(t[i]))
    && StrtodLength(t) == |t|
  }

  predicate Printable(v: Json) {
    match v
    case Number(token) => IsToken(token)
    case String(s) => NulFree(s)
    case Array(items) => PrintableItems(items)
    case Object(members) => PrintableMembers(members)
    case _ => true
  }

  predicate PrintableItems(items: Items) {
    items.Item? ==> Printable(items.value) && PrintableItems(items.next)
  }

  predicate PrintableMembers(members: Members) {
    members.Member? ==> NulFree(members.key) && Printable(members.value) && PrintableMembers(members.next)
  }

  function Max(a: nat, b: nat): nat {
    if a >= b then a else b
  }

  function Nesting(v: Json): nat {
    match v
    case Array(items) => 1 + NestingItems(items)
    case Object(members) => 1 + NestingMembers(members)
    case _ => 0
  }

  function NestingItems(items: Items): nat {
    if items.Item? then Max(Nesting(items.value), NestingItems(items.next)) else 0
  }

  function NestingMembers(members: Members): nat {
    if members.Member? then Max(Nesting(members.value), NestingMembers(members.next)) else 0
  }
}
