/** What cJSON's recursive-descent parser computes, as functions of the bytes still to be read. */
module JsonParse {
  import opened Bytes
  import opened JsonText

  const NESTING_LIMIT := 1000

  // ----- String literals -----

  function HexDigit(c: byte): (d: Option<nat>)
    ensures d.Some? ==> d.value < 16
  {
    if 0x30 <= c <= 0x39 then Some(c - 0x30)
    else if 0x41 <= c <= 0x46 then Some(10 + c - 0x41)
    else if 0x61 <= c <= 0x66 then Some(10 + c - 0x61)
    else None
  }

  /** parse_hex4: zero for anything that is not four hexadecimal digits. */
  function Hex4(s: seq<byte>): (h: nat)
    requires |s| == 4
    ensures h < 0x1_0000
  {
    var a, b, c, d := HexDigit(s[0]), HexDigit(s[1]), HexDigit(s[2]), HexDigit(s[3]);
    if a.Some? && b.Some? && c.Some? && d.Some?
    then 0x1000 * a.value + 0x100 * b.value + 0x10 * c.value + d.value else 0
  }

  function Utf8(codepoint: nat): (u: seq<byte>)
    requires codepoint < 0x11_0000
    ensures 1 <= |u| <= 4 && (codepoint < 0x1_0000 ==> |u| <= 3)
  {
    if codepoint < 0x80 then [codepoint]
    else if codepoint < 0x800 then [0xc0 + codepoint / 0x40, 0x80 + codepoint % 0x40]
    else if codepoint < 0x1_0000 then
      [0xe0 + codepoint / 0x1000, 0x80 + codepoint / 0x40 % 0x40, 0x80 + codepoint % 0x40]
    else
      [0xf0 + codepoint / 0x4_0000, 0x80 + codepoint / 0x1000 % 0x40, 0x80 + codepoint / 0x40 % 0x40,
          0x80 + codepoint % 0x40]
  }

  datatype Decoded = Decoded(length: nat, bytes: seq<byte>)

  /** utf16_literal_to_utf8 at a backslash-u, with n bytes left before the closing quote. */
  function Utf16Literal(t: seq<byte>, n: int): (r: Option<Decoded>)
    requires n <= |t|
    ensures r.Some? ==> r.value.length <= n && 1 <= |r.value.bytes| <= 4
    ensures r.Some? ==> (r.value.length == 6 && |r.value.bytes| <= 3) || r.value.length == 12
  {
    if n < 6 then None
    else
      var first := Hex4(t[2..6]);
      if 0xdc00 <= first <= 0xdfff then None
      else if 0xd800 <= first <= 0xdbff then
        if n < 12 || t[6] != BACKSLASH || t[7] != 0x75 then None
        else
          var second := Hex4(t[8..12]);
          if second < 0xdc00 || second > 0xdfff then None
          else Some(Decoded(12, Utf8(0x1_0000 + 0x400 * (first % 0x400) + second % 0x400)))
      else Some(Decoded(6, Utf8(first)))
  }

  /** The byte a one-character escape stands for. */
  function SimpleEscape(c: byte): Option<byte> {
    if c == 0x62 then Some(0x08)
    else if c == 0x66 then Some(0x0c)
    else if c == 0x6e then Some(0x0a)
    else if c == 0x72 then Some(0x0d)
    else if c == 0x74 then Some(0x09)
    else if c == QUOTE || c == BACKSLASH || c == 0x2f then Some(c)
    else None
  }

  /** The first pass: how far the closing quote is. */
  function ClosingQuote(t: seq<byte>): (n: Option<nat>)
    ensures n.Some? ==> n.value < |t| && t[n.value] == QUOTE
  {
    if t == [] then None
    else if t[0] == QUOTE then Some(0)
    else if t[0] == BACKSLASH then
      if |t| < 2 then None else (var n := ClosingQuote(t[2..]); if n.Some? then Some(n.value + 2) else None)
    else (var n := ClosingQuote(t[1..]); if n.Some? then Some(n.value + 1) else None)
  }

  /** The second pass: decode the n bytes before the closing quote. */
  function Decode(t: seq<byte>, n: int): Option<seq<byte>>
    requires n < |t|
    decreases |t|
  {
    if n <= 0 then Some([])
    else if t[0] != BACKSLASH then Prepend([t[0]], Decode(t[1..], n - 1))
    else if t[1] == 0x75 then
      var u := Utf16Literal(t, n);
      if u.None? then None else Prepend(u.value.bytes, Decode(t[u.value.length..], n - u.value.length))
    else if SimpleEscape(t[1]).None? then None
    else Prepend([SimpleEscape(t[1]).value], Decode(t[2..], n - 2))
  }

  function Prepend(s: seq<byte>, rest: Option<seq<byte>>): Option<seq<byte>> {
    if rest.None? then None else Some(s + rest.value)
  }

  datatype Parsed<T> = Parsed(value: T, rest: seq<byte>)

  /** parse_string. */
  function ParseString(t: seq<byte>): (r: Option<Parsed<seq<byte>>>)
    ensures r.Some? ==> |r.value.rest| < |t|
  {
    if t == [] || t[0] != QUOTE then None
    else
      var n := ClosingQuote(t[1..]);
      if n.None? then None
      else
        var s := Decode(t[1..], n.value);
        if s.None? then None else Some(Parsed(CString(s.value), t[n.value + 2..]))
  }

  // ----- Numbers and whitespace -----

  function NumberRun(t: seq<byte>, room: nat): (n: nat)
    ensures n <= |t| && n <= room
    decreases room
  {
    if room == 0 || t == [] || !IsNumberByte(t[0]) then 0 else 1 + NumberRun(t[1..], room - 1)
  }

  function ParseNumber(t: seq<byte>): (r: Option<Parsed<Json>>)
    ensures r.Some? ==> |r.value.rest| < |t|
  {
    var n := StrtodLength(t[..NumberRun(t, 63)]);
    if n == 0 then None else Some(Parsed(Number(t[..n]), t[n..]))
  }

  function DropBlanks(t: seq<byte>): (r: seq<byte>)
    ensures |r| <= |t|
  {
    if t == [] || t[0] > 32 then t else DropBlanks(t[1..])
  }

  /** buffer_skip_whitespace: it never runs off the buffer, but stays on a last blank. */
  function Skip(t: seq<byte>): (r: seq<byte>)
    ensures |r| <= |t|
  {
    if t == [] then t
    else if DropBlanks(t) == [] then t[|t| - 1..]
    else DropBlanks(t)
  }

  predicate StartsWith(t: seq<byte>, p: seq<byte>) {
    |p| <= |t| && t[..|p|] == p
  }

  // ----- Values -----

  /** parse_value; `depth` is the number of arrays and objects open around it. */
  function ParseValue(t: seq<byte>, depth: nat): (r: Option<Parsed<Json>>)
    ensures r.Some? ==> |r.value.rest| < |t|
    decreases |t|, 1
  {
    if StartsWith(t, NULL_TEXT) then Some(Parsed(Null, t[4..]))
    else if StartsWith(t, FALSE_TEXT) then Some(Parsed(False, t[5..]))
    else if StartsWith(t, TRUE_TEXT) then Some(Parsed(True, t[4..]))
    else if t == [] then None
    else if t[0] == QUOTE then
      var s := ParseString(t);
      if s.None? then None else Some(Parsed(String(s.value.value), s.value.rest))
    else if t[0] == 0x2d || IsDigit(t[0]) then ParseNumber(t)
    else if t[0] == OPEN_ARRAY then ParseArray(t, depth)
    else if t[0] == OPEN_OBJECT then ParseObject(t, depth)
    else None
  }

  /** parse_array, at an opening bracket. */
  function ParseArray(t: seq<byte>, depth: nat): (r: Option<Parsed<Json>>)
    requires t != []
    ensures r.Some? ==> |r.value.rest| < |t|
    decreases |t|, 0
  {
    if depth >= NESTING_LIMIT then None
    else
      var u := Skip(t[1..]);
      if u == [] then None
      else if u[0] == CLOSE_ARRAY then Some(Parsed(Array(NoItems), u[1..]))
      else
        var items := ParseItems(u, depth + 1);
        if items.None? then None else Some(Parsed(Array(items.value.value), items.value.rest))
  }

  /** parse_object, at an opening brace. */
  function ParseObject(t: seq<byte>, depth: nat): (r: Option<Parsed<Json>>)
    requires t != []
    ensures r.Some? ==> |r.value.rest| < |t|
    decreases |t|, 0
  {
    if depth >= NESTING_LIMIT then None
    else
      var u := Skip(t[1..]);
      if u == [] then None
      else if u[0] == CLOSE_OBJECT then Some(Parsed(Object(NoMembers), u[1..]))
      else
        var members := ParseMembers(u, depth + 1);
        if members.None? then None else Some(Parsed(Object(members.value.value), members.value.rest))
  }

  /** The loop of parse_array, from an element on. */
  function ParseItems(t: seq<byte>, depth: nat): (r: Option<Parsed<Items>>)
    ensures r.Some? ==> |r.value.rest| < |t|
    decreases |t|, 2
  {
    var v := ParseValue(Skip(t), depth);
    if v.None? then None
    else
      var u := Skip(v.value.rest);
      if u != [] && u[0] == COMMA then
        var next := ParseItems(u[1..], depth);
        if next.None? then None else Some(Parsed(Item(v.value.value, next.value.value), next.value.rest))
      else if u != [] && u[0] == CLOSE_ARRAY then Some(Parsed(Item(v.value.value, NoItems), u[1..]))
      else None
  }

  /** The loop of parse_object, from a key on. */
  function ParseMembers(t: seq<byte>, depth: nat): (r: Option<Parsed<Members>>)
    ensures r.Some? ==> |r.value.rest| < |t|
    decreases |t|, 2
  {
    var key := ParseString(Skip(t));
    if key.None? then None
    else
      var c := Skip(key.value.rest);
      if c == [] || c[0] != COLON then None
      else
        var v := ParseValue(Skip(c[1..]), depth);
        if v.None? then None
        else
          var u := Skip(v.value.rest);
          if u != [] && u[0] == COMMA then
            var next := ParseMembers(u[1..], depth);
            if next.None? then None
            else Some(Parsed(Member(key.value.value, v.value.value, next.value.value), next.value.rest))
          else if u != [] && u[0] == CLOSE_OBJECT then
              Some(Parsed(Member(key.value.value, v.value.value, NoMembers), u[1..]))
          else None
  }

  /** skip_utf8_bom. */
  function SkipBom(t: seq<byte>): seq<byte> {
    if |t| > 4 && StartsWith(t, [0xef, 0xbb, 0xbf]) then t[3..] else t
  }

  /** cJSON_Parse on a C string: the buffer includes its terminating zero. */
  function Parse(text: seq<byte>): Option<Json> {
    var v := ParseValue(Skip(SkipBom(text + [0])), 0);
    if v.None? then None else Some(v.value.value)
  }
}
