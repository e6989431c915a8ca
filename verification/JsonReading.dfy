/** Every JSON text within the parser's limits is read as the value it writes, and every other one is refused. */
module JsonReading {
  import opened Bytes
  import opened JsonText
  import opened JsonParse
  import opened JsonGrammar

  /** What the parser returns at a value: the value and what is behind it, or nothing where nesting is too deep. */
  function Outcome<T>(fits: bool, value: T, rest: seq<byte>): Option<Parsed<T>> {
    if fits then Some(Parsed(value, rest)) else None
  }

  // ----- First bytes -----

  lemma FirstByte(s: Syntax, rest: seq<byte>)
    requires Good(s)
    ensures var t := Written(s, rest);
            t != [] && t[0] > 32 && t[0] != CLOSE_ARRAY && t[0] != CLOSE_OBJECT && t[0] != 0xef
  {
    hide BodyText, WrittenElements, WrittenFields, StrtodLength, GoodBody;
  }

  lemma NotALiteral(t: seq<byte>)
    requires t != [] && t[0] != NULL_TEXT[0] && t[0] != FALSE_TEXT[0] && t[0] != TRUE_TEXT[0]
    ensures !StartsWith(t, NULL_TEXT) && !StartsWith(t, FALSE_TEXT) && !StartsWith(t, TRUE_TEXT)
  {
    assert |t| >= 4 ==> t[..4][0] == t[0];
    assert |t| >= 5 ==> t[..5][0] == t[0];
  }

  /** Blanks, or none, before a comma or a closing bracket do not look like more of a number. */
  lemma BlankDelimits(after: seq<byte>, x: seq<byte>)
    requires Blank(after) && x != [] && (x[0] == COMMA || x[0] == CLOSE_ARRAY || x[0] == CLOSE_OBJECT)
    ensures Delimited(after + x) && Skip(after + x) == x
  {
    hide Skip;
    BlanksSkipped(after, x);
    assert (after + x)[0] == if after == [] then x[0] else after[0];
  }

  // ----- Values -----

  lemma WordReads(v: Json, rest: seq<byte>, d: nat)
    requires v.Null? || v.False? || v.True?
    ensures ParseValue(Text(v, 0, false) + rest, d) == Some(Parsed(v, rest))
  {
    hide ParseArray, ParseObject, ParseString, ParseNumber;
    var t := Text(v, 0, false);
    assert (t + rest)[..|t|] == t && (t + rest)[|t|..] == rest;
    assert (t + rest)[0] == t[0];
  }

  /** The parser takes exactly this number. */
  predicate Taken(token: seq<byte>, rest: seq<byte>) {
    ParseNumber(token + rest) == Some(Parsed(Number(token), rest))
  }

  lemma TakenFits(token: seq<byte>, rest: seq<byte>)
    requires Taken(token, rest)
    ensures |token| <= 63
  {
    hide StrtodLength, NumberRun;
    var n := StrtodLength((token + rest)[..NumberRun(token + rest, 63)]);
    assert |(token + rest)[..n]| == n;
  }

  lemma NumeralStarts(token: seq<byte>, rest: seq<byte>, d: nat)
    requires IsLiteral(token)
    ensures ParseValue(token + rest, d) == ParseNumber(token + rest)
  {
    hide ParseArray, ParseObject, ParseString, ParseNumber, StrtodLength;
    NotALiteral(token + rest);
  }

  /** A number longer than the parser looks at is at most read in part. */
  lemma LongNumberCut(token: seq<byte>, rest: seq<byte>)
    requires IsLiteral(token) && |token| > 63
    ensures var n := StrtodLength(token[..63]);
            && ParseNumber(token + rest) == (
                 if n == 0 then None else Some(Parsed(Number(token[..n]), token[n..] + rest)))
            && token[n..] != [] && IsNumberByte(token[n..][0])
  {
    hide StrtodLength, NumberRun;
    var n := StrtodLength(token[..63]);
    var front := token[..63];
    FullRun(token, rest, 63);
    assert (token + rest)[..63] == token[..63];
    assert (token + rest)[..n] == token[..n] && (token + rest)[n..] == token[n..] + rest;
    assert token[n..][0] == token[n];
  }

  lemma {:induction false} FullRun(token: seq<byte>, rest: seq<byte>, room: nat)
    requires room <= |token| && forall i :: 0 <= i < |token| ==> IsNumberByte(token[i])
    ensures NumberRun(token + rest, room) == room
  {
    if room > 0 {
      assert (token + rest)[1..] == token[1..] + rest;
      FullRun(token[1..], rest, room - 1);
    }
  }

  lemma QuotedReads(body: Body, rest: seq<byte>, d: nat)
    requires GoodBody(body)
    ensures ParseValue(Literal(body, rest), d) == Some(Parsed(String(Kept(body)), rest))
  {
    hide ParseArray, ParseObject, ParseString, ParseNumber, GoodBody, BodyText, Kept;
    LiteralReads(body, rest);
    NotALiteral(Literal(body, rest));
  }

  /** What an opening bracket leads to. */
  lemma ArrayOpens(t: seq<byte>, u: seq<byte>, d: nat)
    requires Skip(t) == u && u != []
    ensures ParseValue([OPEN_ARRAY] + t, d) == (
              if d >= NESTING_LIMIT then None
              else if u[0] == CLOSE_ARRAY then Some(Parsed(Array(NoItems), u[1..]))
              else
                var items := ParseItems(u, d + 1);
                if items.None? then None else Some(Parsed(Array(items.value.value), items.value.rest)))
  {
    hide Skip, ParseItems, ParseMembers, ParseString, ParseNumber;
    NotALiteral([OPEN_ARRAY] + t);
    assert ([OPEN_ARRAY] + t)[1..] == t;
  }

  lemma ObjectOpens(t: seq<byte>, u: seq<byte>, d: nat)
    requires Skip(t) == u && u != []
    ensures ParseValue([OPEN_OBJECT] + t, d) == (
              if d >= NESTING_LIMIT then None
              else if u[0] == CLOSE_OBJECT then Some(Parsed(Object(NoMembers), u[1..]))
              else
                var members := ParseMembers(u, d + 1);
                if members.None? then None else Some(Parsed(Object(members.value.value), members.value.rest)))
  {
    hide Skip, ParseItems, ParseMembers, ParseString, ParseNumber;
    NotALiteral([OPEN_OBJECT] + t);
    assert ([OPEN_OBJECT] + t)[1..] == t;
  }

  /** One turn of the loop of parse_array, at an element that has been read or refused. */
  lemma ItemParsed(t: seq<byte>, val: seq<byte>, fits: bool, v: Json, after: seq<byte>, u: seq<byte>, d: nat)
    requires Skip(t) == val && ParseValue(val, d) == Outcome(fits, v, after) && Skip(after) == u && u != []
    ensures ParseItems(t, d) == (
              if !fits then None
              else if u[0] == COMMA then
                var next := ParseItems(u[1..], d);
                if next.None? then None else Some(Parsed(Item(v, next.value.value), next.value.rest))
              else if u[0] == CLOSE_ARRAY then Some(Parsed(Item(v, NoItems), u[1..]))
              else None)
  {
    hide Skip, ParseValue;
  }

  /** One turn of the loop of parse_object. */
  lemma MemberParsed(t: seq<byte>, quoted: seq<byte>, key: seq<byte>, c: seq<byte>, lead: seq<byte>, val: seq<byte>,
                     fits: bool, v: Json, after: seq<byte>, u: seq<byte>, d: nat)
    requires Skip(t) == quoted && ParseString(quoted) == Some(Parsed(key, c)) && Skip(c) == [COLON] + lead
    requires Skip(lead) == val && ParseValue(val, d) == Outcome(fits, v, after) && Skip(after) == u && u != []
    ensures ParseMembers(t, d) == (
              if !fits then None
              else if u[0] == COMMA then
                var next := ParseMembers(u[1..], d);
                if next.None? then None else Some(Parsed(Member(key, v, next.value.value), next.value.rest))
              else if u[0] == CLOSE_OBJECT then Some(Parsed(Member(key, v, NoMembers), u[1..]))
              else None)
  {
    hide Skip, ParseValue, ParseString;
    assert ([COLON] + lead)[1..] == lead;
  }

  /** A value that is refused, or read up to the middle of a number. */
  predicate Cut(val: seq<byte>, d: nat) {
    var v := ParseValue(val, d);
    v.None? || (v.value.rest != [] && IsNumberByte(v.value.rest[0]))
  }

  /** A turn that stops at a value that is refused, or at something that is neither comma nor bracket. */
  lemma ItemRefused(t: seq<byte>, val: seq<byte>, d: nat)
    requires Skip(t) == val
    requires Cut(val, d)
    ensures ParseItems(t, d) == None
  {
    hide ParseValue;
    var v := ParseValue(val, d);
    if v.Some? {
      SolidStart(v.value.rest);
    }
  }

  lemma MemberRefused(t: seq<byte>, quoted: seq<byte>, key: seq<byte>, c: seq<byte>, lead: seq<byte>, val: seq<byte>,
                      d: nat)
    requires Skip(t) == quoted && ParseString(quoted) == Some(Parsed(key, c)) && Skip(c) == [COLON] + lead
    requires Skip(lead) == val
    requires Cut(val, d)
    ensures ParseMembers(t, d) == None
  {
    hide ParseValue, ParseString;
    assert ([COLON] + lead)[1..] == lead;
    var v := ParseValue(val, d);
    if v.Some? {
      SolidStart(v.value.rest);
    }
  }

  lemma InnerNumber(s: Syntax, x: seq<byte>, d: nat)
    requires s.Numeral? && Good(s) && Delimited(x)
    ensures if |s.token| <= 63 then Taken(s.token, x) else Cut(Written(s, x), d)
  {
    hide StrtodLength, ParseValue, ParseNumber;
    NumberParses(s.token, x);
    if |s.token| > 63 {
      NumeralStarts(s.token, x, d);
      LongNumberCut(s.token, x);
    }
  }

  lemma ItemsStart(t: seq<byte>, u: seq<byte>, d: nat)
    requires Skip(t) == Skip(u)
    ensures ParseItems(t, d) == ParseItems(u, d)
  {
    hide Skip, ParseValue;
  }

  lemma MembersStart(t: seq<byte>, u: seq<byte>, d: nat)
    requires Skip(t) == Skip(u)
    ensures ParseMembers(t, d) == ParseMembers(u, d)
  {
    hide Skip, ParseValue, ParseString;
  }

  /**
   * Any value as written, with any text behind it: read where nesting and the numbers in it allow, refused where
   * they do not. A number by itself is one that is taken.
   */
  lemma {:induction false} ValueReads(s: Syntax, rest: seq<byte>, d: nat)
    requires Good(s) && d <= NESTING_LIMIT && (s.Numeral? ==> Taken(s.token, rest))
    ensures ParseValue(Written(s, rest), d)
         == Outcome(d + Depth(s) <= NESTING_LIMIT && NumbersFit(s), Meaning(s), rest)
    decreases s, 1
  {
    hide ParseValue, WrittenElements, WrittenFields, ElementsDepth, FieldsDepth, GoodBody, ElementsFit, FieldsFit;
    hide ParseNumber, StrtodLength, Kept;
    match s
    case Word(v) => WordReads(v, rest, d);
    case Numeral(token) =>
      NumeralStarts(token, rest, d);
      TakenFits(token, rest);
    case Quoted(body) => QuotedReads(body, rest, d);
    case Bracketed(gap, elements) => ArrayReads(gap, elements, rest, d);
    case Braced(gap, fields) => ObjectReads(gap, fields, rest, d);
  }

  lemma {:induction false} ArrayReads(gap: seq<byte>, e: Elements, rest: seq<byte>, d: nat)
    requires Blank(gap) && GoodElements(e) && d <= NESTING_LIMIT
    ensures ParseValue([OPEN_ARRAY] + (gap + WrittenElements(e, [CLOSE_ARRAY] + rest)), d)
         == Outcome(d + 1 + ElementsDepth(e) <= NESTING_LIMIT && ElementsFit(e), Array(ElementsMeaning(e)), rest)
    decreases e, 1
  {
    hide Skip, ParseValue, ParseItems, Good, Depth, Meaning, Written, NumbersFit;
    var close := [CLOSE_ARRAY] + rest;
    assert close[1..] == rest;
    if e.NoElements? {
      BlanksSkipped(gap, close);
      ArrayOpens(gap + close, close, d);
    } else {
      var val := Written(e.value, e.after + AfterElement(e.next, close));
      FirstByte(e.value, e.after + AfterElement(e.next, close));
      BlankJoin(gap, e.before);
      BlanksSkipped(gap + e.before, val);
      assert gap + WrittenElements(e, close) == gap + e.before + val;
      ArrayOpens(gap + e.before + val, val, d);
      if d < NESTING_LIMIT {
        BlanksSkipped(e.before, val);
        SolidStart(val);
        ItemsStart(val, e.before + val, d + 1);
        ElementsRead(e, rest, d + 1);
      }
    }
  }

  lemma BlankJoin(a: seq<byte>, b: seq<byte>)
    requires Blank(a) && Blank(b)
    ensures Blank(a + b)
  {
  }

  lemma {:induction false} ElementsRead(e: Elements, rest: seq<byte>, d: nat)
    requires e.Element? && GoodElements(e) && d <= NESTING_LIMIT
    ensures ParseItems(WrittenElements(e, [CLOSE_ARRAY] + rest), d)
         == Outcome(d + ElementsDepth(e) <= NESTING_LIMIT && ElementsFit(e), ElementsMeaning(e), rest)
    decreases e, 0
  {
    hide Skip, ParseValue, ParseItems, Good, Depth, Meaning, Written, Delimited, Blank, NumbersFit, Taken, Cut;
    var close := [CLOSE_ARRAY] + rest;
    var x := AfterElement(e.next, close);
    var val := Written(e.value, e.after + x);
    FirstByte(e.value, e.after + x);
    BlanksSkipped(e.before, val);
    BlankDelimits(e.after, x);
    if e.value.Numeral? {
      InnerNumber(e.value, e.after + x, d);
    }
    NumberAlone(e.value);
    if e.value.Numeral? && |e.value.token| > 63 {
      ItemRefused(e.before + val, val, d);
      return;
    }
    ValueReads(e.value, e.after + x, d);
    ItemParsed(e.before + val, val, d + Depth(e.value) <= NESTING_LIMIT && NumbersFit(e.value), Meaning(e.value),
               e.after + x, x, d);
    if e.next.Element? {
      assert x[1..] == WrittenElements(e.next, close);
      ElementsRead(e.next, rest, d);
    } else {
      assert x[1..] == rest;
    }
  }

  lemma NumberAlone(s: Syntax)
    ensures s.Numeral? ==> (NumbersFit(s) <==> |s.token| <= 63)
  {
  }

  lemma {:induction false} ObjectReads(gap: seq<byte>, f: Fields, rest: seq<byte>, d: nat)
    requires Blank(gap) && GoodFields(f) && d <= NESTING_LIMIT
    ensures ParseValue([OPEN_OBJECT] + (gap + WrittenFields(f, [CLOSE_OBJECT] + rest)), d)
         == Outcome(d + 1 + FieldsDepth(f) <= NESTING_LIMIT && FieldsFit(f), Object(FieldsMeaning(f)), rest)
    decreases f, 1
  {
    hide Skip, ParseValue, ParseMembers, Good, Depth, Meaning, Written, Literal, GoodBody, Kept, NumbersFit;
    var close := [CLOSE_OBJECT] + rest;
    assert close[1..] == rest;
    if f.NoFields? {
      BlanksSkipped(gap, close);
      ObjectOpens(gap + close, close, d);
    } else {
      var quoted := FromKey(f, close);
      KeyFirst(f, close);
      BlankJoin(gap, f.before);
      BlanksSkipped(gap + f.before, quoted);
      assert gap + WrittenFields(f, close) == gap + f.before + quoted;
      ObjectOpens(gap + f.before + quoted, quoted, d);
      if d < NESTING_LIMIT {
        BlanksSkipped(f.before, quoted);
        SolidStart(quoted);
        MembersStart(quoted, f.before + quoted, d + 1);
        FieldsRead(f, rest, d + 1);
      }
    }
  }

  /** A member's text from the quote of its key on. */
  function FromKey(f: Fields, close: seq<byte>): seq<byte>
    requires f.Field?
  {
    Literal(f.key, f.between + ([COLON] + (f.lead + Written(f.value, f.after + AfterField(f.next, close)))))
  }

  lemma KeyFirst(f: Fields, close: seq<byte>)
    requires f.Field?
    ensures FromKey(f, close) != [] && FromKey(f, close)[0] == QUOTE
    ensures WrittenFields(f, close) == f.before + FromKey(f, close)
  {
    hide Written, BodyText;
  }

  lemma {:induction false} FieldsRead(f: Fields, rest: seq<byte>, d: nat)
    requires f.Field? && GoodFields(f) && d <= NESTING_LIMIT
    ensures ParseMembers(WrittenFields(f, [CLOSE_OBJECT] + rest), d)
         == Outcome(d + FieldsDepth(f) <= NESTING_LIMIT && FieldsFit(f), FieldsMeaning(f), rest)
    decreases f, 0
  {
    hide Skip, ParseValue, ParseMembers, ParseString, Good, Depth, Meaning, Written, Literal, Delimited, Blank;
    hide GoodBody, Kept, NumbersFit, Taken, Cut;
    var close := [CLOSE_OBJECT] + rest;
    var x := AfterField(f.next, close);
    var val := Written(f.value, f.after + x);
    var colon := [COLON] + (f.lead + val);
    KeyFirst(f, close);
    BlanksSkipped(f.before, FromKey(f, close));
    LiteralReads(f.key, f.between + colon);
    BlanksSkipped(f.between, colon);
    FirstByte(f.value, f.after + x);
    BlanksSkipped(f.lead, val);
    BlankDelimits(f.after, x);
    if f.value.Numeral? {
      InnerNumber(f.value, f.after + x, d);
    }
    NumberAlone(f.value);
    if f.value.Numeral? && |f.value.token| > 63 {
      MemberRefused(f.before + FromKey(f, close), FromKey(f, close), Kept(f.key), f.between + colon, f.lead + val, val,
                    d);
      return;
    }
    ValueReads(f.value, f.after + x, d);
    MemberParsed(f.before + FromKey(f, close), FromKey(f, close), Kept(f.key), f.between + colon, f.lead + val, val,
                 d + Depth(f.value) <= NESTING_LIMIT && NumbersFit(f.value), Meaning(f.value), f.after + x, x, d);
    if f.next.Field? {
      assert x[1..] == WrittenFields(f.next, close);
      FieldsRead(f.next, rest, d);
    } else {
      assert x[1..] == rest;
    }
  }

  // ----- Documents -----

  const BYTE_ORDER_MARK: seq<byte> := [0xef, 0xbb, 0xbf]

  lemma MarkSkipped(mark: bool, t: seq<byte>)
    requires |t| > 1 && t[0] != 0xef
    ensures SkipBom((if mark then BYTE_ORDER_MARK else []) + t) == t
  {
    var u := (if mark then BYTE_ORDER_MARK else []) + t;
    if mark {
      assert u[..3] == BYTE_ORDER_MARK && u[3..] == t;
    } else {
      assert u == t && (|u| > 4 ==> u[..3][0] == u[0]);
    }
  }

  /** A text: a byte order mark or none, blanks, a value, and anything behind it. */
  function Document(mark: bool, before: seq<byte>, s: Syntax, after: seq<byte>): seq<byte> {
    (if mark then BYTE_ORDER_MARK else []) + (before + Written(s, after))
  }

  lemma DocumentStarts(mark: bool, before: seq<byte>, s: Syntax, after: seq<byte>)
    requires Blank(before) && Good(s)
    ensures Parse(Document(mark, before, s, after)) == (
              var v := ParseValue(Written(s, after + [0]), 0);
              if v.None? then None else Some(v.value.value))
  {
    hide ParseValue, Skip, Good, Written, SkipBom;
    var front := if mark then BYTE_ORDER_MARK else [];
    var val := Written(s, after + [0]);
    FirstByte(s, after + [0]);
    FirstByte(s, after);
    WrittenThen(s, after, [0]);
    BlanksSkipped(before, val);
    MarkSkipped(mark, before + val);
    assert front + (before + Written(s, after)) + [0] == front + (before + val);
  }

  /**
   * Every JSON text of RFC 8259, with a byte order mark or without, any blanks at every place the grammar
   * allows, any escapes with surrogates in pairs, numbers of any length, and anything behind the value that is
   * not more of a number: cJSON_Parse returns the value written if brackets and braces are nested at most a
   * thousand deep and no number in it has more than 63 bytes, and null otherwise.
   */
  lemma DocumentReads(mark: bool, before: seq<byte>, s: Syntax, after: seq<byte>)
    requires Blank(before) && Good(s) && (s.Numeral? ==> |s.token| <= 63 && Delimited(after))
    ensures Parse(Document(mark, before, s, after))
         == if Depth(s) <= 1000 && NumbersFit(s) then Some(Meaning(s)) else None
  {
    hide ParseValue, Depth, Meaning, Written, NumbersFit, StrtodLength, ParseNumber, Parse, GoodBody;
    DocumentStarts(mark, before, s, after);
    if s.Numeral? {
      NumberParses(s.token, after + [0]);
    }
    ValueReads(s, after + [0], 0);
  }

  /** A text that is one longer number: what strtod takes of its first 63 bytes. */
  lemma LongNumberReads(mark: bool, before: seq<byte>, token: seq<byte>, after: seq<byte>)
    requires Blank(before) && IsLiteral(token) && |token| > 63
    ensures var n := StrtodLength(token[..63]);
            Parse(Document(mark, before, Numeral(token), after)) == if n == 0 then None else Some(Number(token[..n]))
  {
    hide ParseValue, StrtodLength, ParseNumber, Parse;
    DocumentStarts(mark, before, Numeral(token), after);
    NumeralStarts(token, after + [0], 0);
    LongNumberCut(token, after + [0]);
  }

  /** What stands behind a value is only ever appended. */
  lemma {:induction false} WrittenThen(s: Syntax, rest: seq<byte>, more: seq<byte>)
    ensures Written(s, rest + more) == Written(s, rest) + more
    decreases s, 0
  {
    match s
    case Word(v) =>
    case Numeral(token) =>
    case Quoted(body) => LiteralThen(body, rest, more);
    case Bracketed(gap, elements) =>
      ElementsThen(elements, [CLOSE_ARRAY] + rest, more);
      assert [CLOSE_ARRAY] + (rest + more) == [CLOSE_ARRAY] + rest + more;
    case Braced(gap, fields) =>
      FieldsThen(fields, [CLOSE_OBJECT] + rest, more);
      assert [CLOSE_OBJECT] + (rest + more) == [CLOSE_OBJECT] + rest + more;
  }

  lemma LiteralThen(body: Body, rest: seq<byte>, more: seq<byte>)
    ensures Literal(body, rest + more) == Literal(body, rest) + more
  {
    hide BodyText;
  }

  lemma {:induction false} ElementsThen(e: Elements, rest: seq<byte>, more: seq<byte>)
    ensures WrittenElements(e, rest + more) == WrittenElements(e, rest) + more
    decreases e, 0
  {
    hide Written;
    if e.Element? {
      ElementsThen(e.next, rest, more);
      var x := AfterElement(e.next, rest);
      assert AfterElement(e.next, rest + more) == x + more;
      assert e.after + (x + more) == e.after + x + more;
      WrittenThen(e.value, e.after + x, more);
    }
  }

  lemma {:induction false} FieldsThen(f: Fields, rest: seq<byte>, more: seq<byte>)
    ensures WrittenFields(f, rest + more) == WrittenFields(f, rest) + more
    decreases f, 0
  {
    hide Written, Literal;
    if f.Field? {
      FieldsThen(f.next, rest, more);
      var x := AfterField(f.next, rest);
      assert AfterField(f.next, rest + more) == x + more;
      assert f.after + (x + more) == f.after + x + more;
      WrittenThen(f.value, f.after + x, more);
      var val := Written(f.value, f.after + x);
      assert f.between + ([COLON] + (f.lead + (val + more))) == f.between + ([COLON] + (f.lead + val)) + more;
      LiteralThen(f.key, f.between + ([COLON] + (f.lead + val)), more);
    }
  }
}
