/** The recursive-descent parser over a buffer with an offset and a depth, as the source runs it. */
module JsonParser {
  import opened Bytes
  import opened JsonText
  import opened JsonParse
  import opened JsonStrings

  /** The values parsed so far, in front of the rest of a chain. */
  function Chain(front: seq<Json>, rest: Items): Items {
    if front == [] then rest else Item(front[0], Chain(front[1..], rest))
  }

  function MemberChain(front: seq<(seq<byte>, Json)>, rest: Members): Members {
    if front == [] then rest else Member(front[0].0, front[0].1, MemberChain(front[1..], rest))
  }

  lemma {:induction false} ChainAppend(front: seq<Json>, v: Json, rest: Items)
    ensures Chain(front + [v], rest) == Chain(front, Item(v, rest))
  {
    if front == [] {
      assert front + [v] == [v] && [v][1..] == [];
      assert Chain([], rest) == rest;
    } else {
      assert (front + [v])[1..] == front[1..] + [v];
      ChainAppend(front[1..], v, rest);
    }
  }

  lemma {:induction false} MemberChainAppend(front: seq<(seq<byte>, Json)>, key: seq<byte>, v: Json, rest: Members)
    ensures MemberChain(front + [(key, v)], rest) == MemberChain(front, Member(key, v, rest))
  {
    if front == [] {
      assert front + [(key, v)] == [(key, v)] && [(key, v)][1..] == [];
      assert MemberChain([], rest) == rest;
    } else {
      assert (front + [(key, v)])[1..] == front[1..] + [(key, v)];
      MemberChainAppend(front[1..], key, v, rest);
    }
  }

  function WithItems(front: seq<Json>, r: Option<Parsed<Items>>): Option<Parsed<Items>> {
    if r.None? then None else Some(Parsed(Chain(front, r.value.value), r.value.rest))
  }

  function WithMembers(front: seq<(seq<byte>, Json)>, r: Option<Parsed<Members>>): Option<Parsed<Members>> {
    if r.None? then None else Some(Parsed(MemberChain(front, r.value.value), r.value.rest))
  }

  lemma ItemsUnfold(t: seq<byte>, depth: nat)
    ensures ParseItems(t, depth) == (
              var v := ParseValue(Skip(t), depth);
              if v.None? then None
              else
                var u := Skip(v.value.rest);
                if u != [] && u[0] == COMMA then
                  var next := ParseItems(u[1..], depth);
                  if next.None? then None else Some(Parsed(Item(v.value.value, next.value.value), next.value.rest))
                else if u != [] && u[0] == CLOSE_ARRAY then Some(Parsed(Item(v.value.value, NoItems), u[1..]))
                else None)
  {
    hide ParseValue, Skip;
  }

  lemma WithNothing(r: Option<Parsed<Items>>)
    ensures WithItems([], r) == r
  {
  }

  lemma WithNextItem(items: seq<Json>, v: Json, r: Option<Parsed<Items>>)
    ensures WithItems(items, if r.None? then None else Some(Parsed(Item(v, r.value.value), r.value.rest)))
         == WithItems(items + [v], r)
  {
    hide Chain;
    if r.Some? {
      ChainAppend(items, v, r.value.value);
    }
  }

  lemma WithLastItem(items: seq<Json>, v: Json, rest: seq<byte>)
    ensures WithItems(items, Some(Parsed(Item(v, NoItems), rest))) == Some(Parsed(Chain(items + [v], NoItems), rest))
  {
    hide Chain;
    ChainAppend(items, v, NoItems);
  }

  lemma WithNoItems(items: seq<Json>)
    ensures WithItems(items, None) == None
  {
  }

  /** Key, colon and value of one member. */
  function Entry(t: seq<byte>, depth: nat): Option<Parsed<(seq<byte>, Json)>> {
    var key := ParseString(Skip(t));
    if key.None? then None
    else
      var c := Skip(key.value.rest);
      if c == [] || c[0] != COLON then None
      else
        var v := ParseValue(Skip(c[1..]), depth);
        if v.None? then None else Some(Parsed((key.value.value, v.value.value), v.value.rest))
  }

  lemma MembersUnfold(t: seq<byte>, depth: nat)
    ensures ParseMembers(t, depth) == (
              var m := Entry(t, depth);
              if m.None? then None
              else
                var u := Skip(m.value.rest);
                if u != [] && u[0] == COMMA then
                  var next := ParseMembers(u[1..], depth);
                  if next.None? then None
                  else Some(Parsed(Member(m.value.value.0, m.value.value.1, next.value.value), next.value.rest))
                else if u != [] && u[0] == CLOSE_OBJECT then
                    Some(Parsed(Member(m.value.value.0, m.value.value.1, NoMembers), u[1..]))
                else None)
  {
    hide ParseValue, ParseString, Skip;
  }

  lemma WithNoFront(r: Option<Parsed<Members>>)
    ensures WithMembers([], r) == r
  {
  }

  lemma WithNextMember(front: seq<(seq<byte>, Json)>, key: seq<byte>, v: Json, r: Option<Parsed<Members>>)
    ensures WithMembers(front, if r.None? then None else Some(Parsed(Member(key, v, r.value.value), r.value.rest)))
         == WithMembers(front + [(key, v)], r)
  {
    hide MemberChain;
    if r.Some? {
      MemberChainAppend(front, key, v, r.value.value);
    }
  }

  lemma WithLastMember(front: seq<(seq<byte>, Json)>, key: seq<byte>, v: Json, rest: seq<byte>)
    ensures WithMembers(front, Some(Parsed(Member(key, v, NoMembers), rest)))
         == Some(Parsed(MemberChain(front + [(key, v)], NoMembers), rest))
  {
    hide MemberChain;
    MemberChainAppend(front, key, v, NoMembers);
  }

  lemma WithNoMembers(front: seq<(seq<byte>, Json)>)
    ensures WithMembers(front, None) == None
  {
  }

  class ParseBuffer {
    const content: seq<byte>
    var offset: nat
    var depth: nat

    constructor (content: seq<byte>)
      ensures this.content == content && offset == 0 && depth == 0
    {
      this.content, offset, depth := content, 0, 0;
    }

    ghost predicate Valid()
      reads this
    {
      offset <= |content|
    }

    ghost function Rest(): seq<byte>
      requires Valid()
      reads this
    {
      content[offset..]
    }

    /** Whether the buffer holds `c` at its offset. */
    predicate At(c: byte)
      requires Valid()
      reads this
      ensures At(c) <==> Rest() != [] && Rest()[0] == c
    {
      offset < |content| && content[offset] == c
    }

    /** buffer_skip_whitespace. */
    method SkipWhitespace()
      requires Valid()
      modifies this`offset
      ensures Valid() && Rest() == Skip(old(Rest())) && offset >= old(offset)
    {
      if offset >= |content| {
        return;
      }
      while offset < |content| && content[offset] <= 32
        invariant old(offset) <= offset <= |content| && DropBlanks(Rest()) == DropBlanks(old(Rest()))
      {
        assert Rest()[1..] == content[offset + 1..];
        offset := offset + 1;
      }
      if offset == |content| {
        offset := offset - 1;
      }
      assert old(Rest())[|old(Rest())| - 1..] == content[|content| - 1..];
    }

    /** parse_string. */
    method ParseStringLiteral() returns (s: Option<seq<byte>>)
      requires Valid()
      modifies this`offset
      ensures Valid()
      ensures var r := ParseString(old(Rest()));
              if r.None? then s == None else s == Some(r.value.value) && Rest() == r.value.rest && offset > old(offset)
    {
      hide ClosingQuote, Decode, CString;
      if !At(QUOTE) {
        return None;
      }
      var start := offset + 1;
      assert Rest()[1..] == content[start..];
      var closed, end, skipped := FindClosingQuote(content, start);
      if !closed {
        return None;
      }
      var ok, output, written := DecodeLiteral(content, start, end, skipped);
      if !ok {
        return None;
      }
      assert Rest()[end - start + 2..] == content[end + 1..];
      offset := end + 1;
      s := Some(CString(output[..written]));
    }

    /** The loop of parse_number: number bytes, as many as its buffer takes. */
    method RunLength() returns (i: nat)
      requires Valid()
      ensures i == NumberRun(Rest(), 63) && offset + i <= |content|
    {
      hide IsNumberByte;
      var room := 63;
      i := 0;
      assert Rest()[0..] == Rest();
      while room > 0 && offset + i < |content| && IsNumberByte(content[offset + i])
        invariant room + i == 63 && room >= 0 && offset + i <= |content|
        invariant NumberRun(Rest(), 63) == i + NumberRun(Rest()[i..], room)
        decreases room
      {
        assert Rest()[i..][1..] == Rest()[i + 1..];
        i, room := i + 1, room - 1;
      }
    }

    /** parse_number, up to the conversion of the token. */
    method ParseNumberToken() returns (v: Option<Json>)
      requires Valid()
      modifies this`offset
      ensures Valid()
      ensures var r := ParseNumber(old(Rest()));
              if r.None? then v == None else v == Some(r.value.value) && Rest() == r.value.rest && offset > old(offset)
    {
      hide StrtodLength, NumberRun, IsNumberByte;
      var i := RunLength();
      assert Rest()[..i] == content[offset..offset + i];
      var n := StrtodLength(content[offset..offset + i]);
      if n == 0 {
        return None;
      }
      assert Rest()[n..] == content[offset + n..] && Rest()[..n] == content[offset..offset + n];
      v := Some(Number(content[offset..offset + n]));
      offset := offset + n;
    }

    /** strncmp with a literal, within the buffer. */
    predicate Reads(text: seq<byte>)
      requires Valid()
      reads this
      ensures Reads(text) == StartsWith(Rest(), text)
    {
      assert |text| <= |Rest()| ==> Rest()[..|text|] == content[offset..offset + |text|];
      offset + |text| <= |content| && content[offset..offset + |text|] == text
    }

    /** parse_value. */
    method ParseItem() returns (v: Option<Json>)
      requires Valid()
      modifies this
      ensures Valid()
      ensures var r := ParseValue(old(Rest()), old(depth));
              if r.None? then v == None
              else v == Some(r.value.value) && Rest() == r.value.rest && depth == old(depth) && offset > old(offset)
      decreases |content| - offset, 3
    {
      hide StartsWith, ParseString, ParseNumber, ParseArray, ParseObject, Skip;
      LiteralLengths(Rest());
      if Reads(NULL_TEXT) {
        assert Rest()[4..] == content[offset + 4..];
        offset := offset + 4;
        return Some(Null);
      }
      if Reads(FALSE_TEXT) {
        assert Rest()[5..] == content[offset + 5..];
        offset := offset + 5;
        return Some(False);
      }
      if Reads(TRUE_TEXT) {
        assert Rest()[4..] == content[offset + 4..];
        offset := offset + 4;
        return Some(True);
      }
      if At(QUOTE) {
        var s := ParseStringLiteral();
        return if s.Some? then Some(String(s.value)) else None;
      }
      if offset < |content| && (content[offset] == 0x2d || IsDigit(content[offset])) {
        v := ParseNumberToken();
        return;
      }
      if At(OPEN_ARRAY) {
        v := ParseArrayItem();
        return;
      }
      if At(OPEN_OBJECT) {
        v := ParseObjectItem();
        return;
      }
      return None;
    }

    lemma LiteralLengths(t: seq<byte>)
      ensures StartsWith(t, NULL_TEXT) || StartsWith(t, TRUE_TEXT) ==> |t| >= 4
      ensures StartsWith(t, FALSE_TEXT) ==> |t| >= 5
    {
    }

    /** One turn of the loop of parse_array: step over the separator, then a value between blanks. */
    method ParseElement() returns (v: Option<Json>)
      requires Valid() && offset < |content|
      modifies this
      ensures Valid()
      ensures var r := ParseValue(Skip(content[old(offset) + 1..]), old(depth));
              if r.None? then v == None
              else
                && v == Some(r.value.value) && Rest() == Skip(r.value.rest)
                && depth == old(depth) && offset > old(offset)
      decreases |content| - offset, 0
    {
      hide ParseValue, Skip;
      offset := offset + 1;
      SkipWhitespace();
      v := ParseItem();
      if v.Some? {
        SkipWhitespace();
      }
    }

    /** The loop of parse_array, up to the closing bracket. */
    method ParseElements() returns (items: Option<seq<Json>>)
      requires Valid() && offset < |content|
      modifies this
      ensures Valid()
      ensures var r := ParseItems(content[old(offset) + 1..], old(depth));
              if r.None? then items == None
              else
                && items.Some? && Chain(items.value, NoItems) == r.value.value && depth == old(depth)
                && old(offset) < offset < |content| && content[offset + 1..] == r.value.rest
      decreases |content| - offset, 1
    {
      hide ParseItems, ParseValue, Skip, Chain, WithItems;
      ghost var start := content[offset + 1..];
      var front: seq<Json> := [];
      WithNothing(ParseItems(start, depth));
      while true
        invariant old(offset) <= offset < |content| && depth == old(depth)
        invariant ParseItems(start, depth) == WithItems(front, ParseItems(content[offset + 1..], depth))
        decreases |content| - offset
      {
        ItemsUnfold(content[offset + 1..], depth);
        WithNoItems(front);
        var v := ParseElement();
        if v.None? || !(At(COMMA) || At(CLOSE_ARRAY)) {
          return None;
        }
        assert Rest()[1..] == content[offset + 1..];
        if At(CLOSE_ARRAY) {
          WithLastItem(front, v.value, content[offset + 1..]);
          return Some(front + [v.value]);
        }
        WithNextItem(front, v.value, ParseItems(content[offset + 1..], depth));
        front := front + [v.value];
      }
    }

    /** parse_array. */
    method ParseArrayItem() returns (v: Option<Json>)
      requires Valid() && At(OPEN_ARRAY)
      modifies this
      ensures Valid()
      ensures var r := ParseArray(old(Rest()), old(depth));
              if r.None? then v == None
              else v == Some(r.value.value) && Rest() == r.value.rest && depth == old(depth) && offset > old(offset)
      decreases |content| - offset, 2
    {
      hide ParseItems, ParseValue, Skip, Chain;
      if depth >= NESTING_LIMIT {
        return None;
      }
      depth := depth + 1;
      assert Rest()[1..] == content[offset + 1..];
      offset := offset + 1;
      SkipWhitespace();
      if offset >= |content| {
        return None;
      }
      assert Rest()[1..] == content[offset + 1..];
      if At(CLOSE_ARRAY) {
        depth, offset := depth - 1, offset + 1;
        return Some(Array(NoItems));
      }
      offset := offset - 1;
      var items := ParseElements();
      if items.None? {
        return None;
      }
      depth, offset := depth - 1, offset + 1;
      v := Some(Array(Chain(items.value, NoItems)));
    }

    /** One turn of the loop of parse_object: step over the separator, then key, colon and value between blanks. */
    method ParseEntry() returns (m: Option<(seq<byte>, Json)>)
      requires Valid() && offset < |content|
      modifies this
      ensures Valid()
      ensures var r := Entry(content[old(offset) + 1..], old(depth));
              if r.None? then m == None
              else
                && m == Some(r.value.value) && Rest() == Skip(r.value.rest)
                && depth == old(depth) && offset > old(offset)
      decreases |content| - offset, 0
    {
      hide ParseString, ParseValue, Skip;
      offset := offset + 1;
      SkipWhitespace();
      var key := ParseStringLiteral();
      if key.None? {
        return None;
      }
      SkipWhitespace();
      if !At(COLON) {
        return None;
      }
      assert Rest()[1..] == content[offset + 1..];
      offset := offset + 1;
      SkipWhitespace();
      var v := ParseItem();
      if v.None? {
        return None;
      }
      SkipWhitespace();
      m := Some((key.value, v.value));
    }

    /** The loop of parse_object, up to the closing brace. */
    method ParseEntries() returns (members: Option<seq<(seq<byte>, Json)>>)
      requires Valid() && offset < |content|
      modifies this
      ensures Valid()
      ensures var r := ParseMembers(content[old(offset) + 1..], old(depth));
              if r.None? then members == None
              else
                && members.Some? && MemberChain(members.value, NoMembers) == r.value.value && depth == old(depth)
                && old(offset) < offset < |content| && content[offset + 1..] == r.value.rest
      decreases |content| - offset, 1
    {
      hide ParseMembers, Entry, Skip, MemberChain, WithMembers;
      ghost var start := content[offset + 1..];
      var front: seq<(seq<byte>, Json)> := [];
      WithNoFront(ParseMembers(start, depth));
      while true
        invariant old(offset) <= offset < |content| && depth == old(depth)
        invariant ParseMembers(start, depth) == WithMembers(front, ParseMembers(content[offset + 1..], depth))
        decreases |content| - offset
      {
        MembersUnfold(content[offset + 1..], depth);
        WithNoMembers(front);
        var m := ParseEntry();
        if m.None? || !(At(COMMA) || At(CLOSE_OBJECT)) {
          return None;
        }
        assert Rest()[1..] == content[offset + 1..];
        if At(CLOSE_OBJECT) {
          WithLastMember(front, m.value.0, m.value.1, content[offset + 1..]);
          return Some(front + [m.value]);
        }
        WithNextMember(front, m.value.0, m.value.1, ParseMembers(content[offset + 1..], depth));
        front := front + [m.value];
      }
    }

    /** parse_object. */
    method ParseObjectItem() returns (v: Option<Json>)
      requires Valid() && At(OPEN_OBJECT)
      modifies this
      ensures Valid()
      ensures var r := ParseObject(old(Rest()), old(depth));
              if r.None? then v == None
              else v == Some(r.value.value) && Rest() == r.value.rest && depth == old(depth) && offset > old(offset)
      decreases |content| - offset, 2
    {
      hide ParseMembers, ParseValue, Skip, MemberChain;
      if depth >= NESTING_LIMIT {
        return None;
      }
      depth := depth + 1;
      assert Rest()[1..] == content[offset + 1..];
      offset := offset + 1;
      SkipWhitespace();
      if offset >= |content| {
        return None;
      }
      assert Rest()[1..] == content[offset + 1..];
      if At(CLOSE_OBJECT) {
        depth, offset := depth - 1, offset + 1;
        return Some(Object(NoMembers));
      }
      offset := offset - 1;
      var members := ParseEntries();
      if members.None? {
        return None;
      }
      depth, offset := depth - 1, offset + 1;
      v := Some(Object(MemberChain(members.value, NoMembers)));
    }

    /** skip_utf8_bom, at the start of the buffer. */
    method SkipByteOrderMark()
      requires Valid() && offset == 0
      modifies this`offset
      ensures Valid() && Rest() == SkipBom(old(Rest()))
    {
      assert Rest() == content;
      if 4 < |content| && Reads([0xef, 0xbb, 0xbf]) {
        offset := 3;
      }
    }
  }

  lemma ParseIs(text: seq<byte>)
    ensures var v := ParseValue(Skip(SkipBom(text + [0])), 0);
            Parse(text) == if v.None? then None else Some(v.value.value)
  {
    hide ParseValue, Skip, SkipBom;
  }

  /** cJSON_Parse on a C string. */
  method ParseText(text: seq<byte>) returns (v: Option<Json>)
    ensures v == Parse(text)
  {
    hide ParseValue, Skip, SkipBom, Parse;
    ParseIs(text);
    var buffer := new ParseBuffer(text + [0]);
    assert buffer.Rest() == text + [0];
    buffer.SkipByteOrderMark();
    buffer.SkipWhitespace();
    v := buffer.ParseItem();
  }
}
