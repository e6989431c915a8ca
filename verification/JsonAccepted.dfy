/** Nothing but JSON texts, and the little more the grammar has, is accepted by cJSON_Parse. */
module JsonAccepted {
  import opened Bytes
  import opened JsonText
  import opened JsonParse
  import opened JsonGrammar
  import opened JsonReading

  // ----- Blanks -----

  lemma {:induction false} DropSplit(t: seq<byte>) returns (b: seq<byte>)
    ensures Blank(b) && t == b + DropBlanks(t)
  {
    if t == [] || t[0] > 32 {
      b := [];
      assert t == [] + t;
    } else {
      var c := DropSplit(t[1..]);
      b := [t[0]] + c;
      assert t == [t[0]] + t[1..] && [t[0]] + (c + DropBlanks(t[1..])) == b + DropBlanks(t[1..]);
    }
  }

  /** Whatever is skipped is blank. */
  lemma SkipSplit(t: seq<byte>) returns (b: seq<byte>)
    ensures Blank(b) && t == b + Skip(t)
  {
    hide DropBlanks;
    b := DropSplit(t);
    if t == [] {
    } else if DropBlanks(t) == [] {
      assert b + [] == b;
      b := b[..|t| - 1];
      assert t == t[..|t| - 1] + t[|t| - 1..];
    }
  }

  // ----- Strings -----

  lemma {:induction false} PlainBack(p: seq<byte>, u: seq<byte>)
    requires forall i :: 0 <= i < |p| ==> p[i] != QUOTE && p[i] != BACKSLASH
    ensures ClosingQuote(p + u).Some? ==> ClosingQuote(u).Some?
  {
    hide ClosingQuote;
    if p == [] {
      assert p + u == u;
    } else {
      PlainBack(p[1..], u);
      ShiftedQuote(p[1..] + u, p[0]);
      assert p + u == [p[0]] + (p[1..] + u);
    }
  }

  lemma UnitBack(h: seq<byte>, u: seq<byte>)
    requires FourHex(h)
    ensures ClosingQuote(UnitText(h) + u).Some? ==> ClosingQuote(u).Some?
  {
    hide ClosingQuote;
    PlainBack(h, u);
    EscapedQuote(h + u, 0x75);
    assert UnitText(h) + u == [BACKSLASH, 0x75] + (h + u);
  }

  /** In front of a piece the first pass finds the same closing quote. */
  lemma PieceBack(p: Piece, u: seq<byte>)
    requires GoodPiece(p) && ClosingQuote(PieceText(p) + u).Some?
    ensures ClosingQuote(u).Some? && ClosingQuote(PieceText(p) + u).value == ClosingQuote(u).value + |PieceText(p)|
  {
    hide ClosingQuote, FourHex, Hex4;
    match p {
      case Plain(b) => ShiftedQuote(u, b);
      case Short(c) => EscapedQuote(u, c);
      case Unit(h) => UnitBack(h, u);
      case Pair(high, low) =>
        assert UnitText(high) + UnitText(low) + u == UnitText(high) + (UnitText(low) + u);
        UnitBack(high, UnitText(low) + u);
        UnitBack(low, u);
    }
    PieceSkipped(p, u);
  }

  /** Bytes kept of a string do not depend on what a cut-off rest decodes to. */
  lemma {:induction false} KeptAlike(a: seq<byte>, x: seq<byte>, y: seq<byte>)
    requires CString(x) == CString(y)
    ensures CString(a + x) == CString(a + y)
  {
    if a == [] {
      assert a + x == x && a + y == y;
    } else {
      assert (a + x)[1..] == a[1..] + x && (a + y)[1..] == a[1..] + y;
      KeptAlike(a[1..], x, y);
    }
  }

  /** The piece in front of what the second pass accepts, unless it is a malformed unit escape. */
  lemma PieceAt(u: seq<byte>, n: nat) returns (p: Option<Piece>)
    requires ClosingQuote(u) == Some(n) && n > 0 && Decode(u, n).Some?
    ensures p.Some? ==> GoodPiece(p.value) && PieceText(p.value) <= u && |PieceText(p.value)| > 0
    ensures p.None? ==> n >= 6 && u[..2] == [BACKSLASH, 0x75] && !FourHex(u[2..6])
  {
    hide FourHex, Hex4, Utf8, Prepend;
    if u[0] != BACKSLASH {
      p := Some(Plain(u[0]));
    } else if u[1] != 0x75 {
      p := Some(Short(u[1]));
      assert u[..2] == [BACKSLASH, u[1]];
    } else {
      assert n >= 6;
      assert u[..2] == [BACKSLASH, 0x75];
      var h := u[2..6];
      if !FourHex(h) {
        p := None;
      } else if 0xd800 <= Hex4(h) < 0xdc00 {
        var low := u[8..12];
        HexOfSurrogate(low);
        p := Some(Pair(h, low));
        PairAt(u, h, low);
      } else {
        p := Some(Unit(h));
        assert UnitText(h) == u[..6];
      }
    }
  }

  lemma PairAt(u: seq<byte>, high: seq<byte>, low: seq<byte>)
    requires |u| >= 12 && u[0] == u[6] == BACKSLASH && u[1] == u[7] == 0x75 && u[2..6] == high && u[8..12] == low
    ensures UnitText(high) + UnitText(low) == u[..12]
  {
    assert u[..12] == [u[0], u[1]] + u[2..6] + ([u[6], u[7]] + u[8..12]);
  }

  lemma HexOfSurrogate(h: seq<byte>)
    requires |h| == 4 && Hex4(h) != 0
    ensures FourHex(h)
  {
  }

  /** What both passes accept is a body of the grammar, and the bytes kept are those it means. */
  lemma {:induction false} BodyAt(u: seq<byte>, n: nat) returns (body: Body)
    requires ClosingQuote(u) == Some(n) && Decode(u, n).Some?
    ensures GoodBody(body) && BodyText(body) == u[..n] && Kept(body) == CString(Decode(u, n).value)
    decreases |u|
  {
    hide *;
    if n == 0 {
      body := NothingAt(u);
      return;
    }
    var p := PieceAt(u, n);
    if p.None? {
      body := TailAt(u, n);
      return;
    }
    var text := PieceText(p.value);
    var rest := u[|text|..];
    assert u == text + rest;
    PieceBack(p.value, rest);
    var m := ClosingQuote(rest).value;
    QuoteWithin(rest);
    PieceDecoded(p.value, rest, m);
    PrependKnown(PieceBytes(p.value), Decode(rest, m));
    var more := BodyAt(rest, m);
    body := Body([p.value] + more.pieces, more.tail);
    BodyCons(p.value, more);
    KeptAlike(PieceBytes(p.value), PiecesBytes(more.pieces), Decode(rest, m).value);
    assert text + rest[..m] == u[..n];
  }

  lemma QuoteWithin(t: seq<byte>)
    ensures ClosingQuote(t).Some? ==> ClosingQuote(t).value < |t| && t[ClosingQuote(t).value] == QUOTE
  {
    hide ClosingQuote;
  }

  lemma PrependKnown(front: seq<byte>, rest: Option<seq<byte>>)
    ensures Prepend(front, rest).Some? ==> rest.Some? && Prepend(front, rest) == Some(front + rest.value)
  {
  }

  lemma NothingAt(u: seq<byte>) returns (body: Body)
    requires ClosingQuote(u) == Some(0)
    ensures GoodBody(body) && BodyText(body) == u[..0] && Kept(body) == CString(Decode(u, 0).value)
    ensures Decode(u, 0).Some?
  {
    body := Body([], []);
  }

  lemma BodyCons(p: Piece, more: Body)
    requires GoodPiece(p) && GoodBody(more)
    ensures var body := Body([p] + more.pieces, more.tail);
            && GoodBody(body) && BodyText(body) == PieceText(p) + BodyText(more)
            && Kept(body) == CString(PieceBytes(p) + PiecesBytes(more.pieces))
            && GoodPieces(more.pieces) && Kept(more) == CString(PiecesBytes(more.pieces))
  {
    hide GoodPiece, PieceText, PieceBytes, CString, LooseTail;
    assert ([p] + more.pieces)[1..] == more.pieces;
  }

  /** The closing quote found in a text is found in its beginning. */
  lemma {:induction false} QuoteInFront(t: seq<byte>, rest: seq<byte>)
    requires ClosingQuote(t + rest).Some? && ClosingQuote(t + rest).value < |t|
    ensures ClosingQuote(t) == ClosingQuote(t + rest)
    decreases |t|
  {
    var u := t + rest;
    if t[0] != QUOTE {
      assert u[1..] == t[1..] + rest;
      if t[0] == BACKSLASH {
        assert u[2..] == t[2..] + rest;
        QuoteInFront(t[2..], rest);
      } else {
        QuoteInFront(t[1..], rest);
      }
    }
  }

  /** A malformed unit escape, and all that is left with it. */
  lemma TailAt(u: seq<byte>, n: nat) returns (body: Body)
    requires ClosingQuote(u) == Some(n) && Decode(u, n).Some?
    requires n >= 6 && n < |u| && u[..2] == [BACKSLASH, 0x75] && !FourHex(u[2..6])
    ensures GoodBody(body) && BodyText(body) == u[..n] && Kept(body) == CString(Decode(u, n).value)
  {
    hide FourHex, Decode, ClosingQuote;
    var tail, rest := u[..n], u[n + 1..];
    QuoteWithin(u);
    assert u == tail + [QUOTE] + rest;
    QuoteInFront(tail + [QUOTE], rest);
    DecodeLocal(tail + [QUOTE], n, rest);
    assert tail[..2] == u[..2] && tail[2..6] == u[2..6];
    LooseUnitDecoded(tail);
    PrependKnown([0], Decode(tail[6..] + [QUOTE], n - 6));
    body := Body([], tail);
    assert [] + tail == tail;
  }

  /** A string is accepted only where a literal of the grammar stands. */
  lemma LiteralAt(t: seq<byte>) returns (body: Body)
    requires ParseString(t).Some?
    ensures GoodBody(body)
    ensures t == Literal(body, ParseString(t).value.rest) && ParseString(t).value.value == Kept(body)
  {
    hide ClosingQuote, Decode, GoodBody, BodyText, Kept, CString;
    var n := ClosingQuote(t[1..]).value;
    body := BodyAt(t[1..], n);
    assert t == [QUOTE] + (t[1..][..n] + ([QUOTE] + t[n + 2..]));
  }

  // ----- Numbers -----

  lemma {:induction false} DigitsCut(s: seq<byte>, k: nat)
    requires Digits(s) <= k <= |s|
    ensures Digits(s[..k]) == Digits(s)
  {
    if k > 0 && IsDigit(s[0]) {
      assert s[..k][1..] == s[1..][..k - 1];
      DigitsCut(s[1..], k - 1);
    }
  }

  lemma FractionCut(s: seq<byte>, k: nat)
    requires FractionLength(s) <= k <= |s|
    ensures FractionLength(s[..k]) == FractionLength(s)
  {
    hide Digits;
    if k > 0 && s[0] == 0x2e {
      assert s[..k][1..] == s[1..][..k - 1];
      DigitsCut(s[1..], k - 1);
    }
  }

  lemma ExponentCut(s: seq<byte>)
    ensures ExponentLength(s[..ExponentLength(s)]) == ExponentLength(s)
  {
    hide Digits;
    var k := ExponentLength(s);
    if k > 0 {
      var e := if 1 < |s| && (s[1] == 0x2b || s[1] == 0x2d) then 2 else 1;
      assert s[..k][e..] == s[e..][..k - e];
      DigitsCut(s[e..], k - e);
    }
  }

  /** strtod takes what it took before whole. */
  lemma StrtodCut(s: seq<byte>)
    ensures StrtodLength(s[..StrtodLength(s)]) == StrtodLength(s)
  {
    hide Digits, FractionLength, ExponentLength;
    var n := StrtodLength(s);
    if n > 0 {
      var t := s[..n];
      var sign := if s[0] == 0x2b || s[0] == 0x2d then 1 else 0;
      var whole := Digits(s[sign..]);
      var fraction := FractionLength(s[sign + whole..]);
      var m := sign + whole + fraction;
      assert t[sign..] == s[sign..][..n - sign];
      DigitsCut(s[sign..], n - sign);
      assert t[sign + whole..] == s[sign + whole..][..n - sign - whole];
      FractionCut(s[sign + whole..], n - sign - whole);
      assert t[m..] == s[m..][..n - m];
      ExponentCut(s[m..]);
    }
  }

  lemma {:induction false} RunIsNumber(t: seq<byte>, room: nat)
    ensures NumberRun(t, room) <= room && forall i :: 0 <= i < NumberRun(t, room) ==> IsNumberByte(t[i])
    decreases room
  {
    if NumberRun(t, room) > 0 {
      RunIsNumber(t[1..], room - 1);
    }
  }

  /** A number is accepted only where a literal of at most 63 bytes stands. */
  lemma NumberAt(t: seq<byte>) returns (token: seq<byte>)
    requires ParseNumber(t).Some? && t != [] && (t[0] == 0x2d || IsDigit(t[0]))
    ensures IsLiteral(token) && |token| <= 63 && ParseNumber(t).value.value == Number(token)
    ensures t == token + ParseNumber(t).value.rest && Taken(token, ParseNumber(t).value.rest)
  {
    hide StrtodLength, NumberRun;
    var k := NumberRun(t, 63);
    var n := StrtodLength(t[..k]);
    RunIsNumber(t, 63);
    StrtodCut(t[..k]);
    token := t[..n];
    assert t[..k][..n] == token;
    assert t == token + t[n..];
  }

  // ----- Values -----

  lemma WordAt(t: seq<byte>, w: seq<byte>)
    requires StartsWith(t, w)
    ensures t == w + t[|w|..]
  {
  }

  /** A value is accepted only where one of the grammar stands, within the limits on nesting and numbers. */
  lemma {:induction false} ValueAt(t: seq<byte>, d: nat) returns (s: Syntax)
    requires ParseValue(t, d).Some? && d <= NESTING_LIMIT
    ensures var r := ParseValue(t, d).value;
            && Good(s) && NumbersFit(s) && d + Depth(s) <= NESTING_LIMIT
            && t == Written(s, r.rest) && Meaning(s) == r.value && (s.Numeral? ==> Taken(s.token, r.rest))
    decreases |t|, 1
  {
    hide ParseArray, ParseObject, ParseString, ParseNumber, StrtodLength, GoodBody, Literal, Kept, Taken;
    if StartsWith(t, NULL_TEXT) {
      WordAt(t, NULL_TEXT);
      s := Word(Null);
    } else if StartsWith(t, FALSE_TEXT) {
      WordAt(t, FALSE_TEXT);
      s := Word(False);
    } else if StartsWith(t, TRUE_TEXT) {
      WordAt(t, TRUE_TEXT);
      s := Word(True);
    } else if t[0] == QUOTE {
      var body := LiteralAt(t);
      s := Quoted(body);
    } else if t[0] == 0x2d || IsDigit(t[0]) {
      var token := NumberAt(t);
      s := Numeral(token);
    } else if t[0] == OPEN_ARRAY {
      s := ArrayAt(t, d);
    } else {
      s := ObjectAt(t, d);
    }
  }

  lemma {:induction false} ArrayAt(t: seq<byte>, d: nat) returns (s: Syntax)
    requires t != [] && t[0] == OPEN_ARRAY && ParseArray(t, d).Some? && d <= NESTING_LIMIT
    ensures var r := ParseArray(t, d).value;
            && s.Bracketed? && Good(s) && NumbersFit(s) && d + Depth(s) <= NESTING_LIMIT
            && t == Written(s, r.rest) && Meaning(s) == r.value
    decreases |t|, 0
  {
    hide ParseItems, Skip, GoodElements, ElementsFit, ElementsDepth, ElementsMeaning, WrittenElements;
    var rest := ParseArray(t, d).value.rest;
    var gap := SkipSplit(t[1..]);
    var u := Skip(t[1..]);
    if u[0] == CLOSE_ARRAY {
      NoElementsAre([CLOSE_ARRAY] + rest);
      s := Bracketed(gap, NoElements);
      assert u == [CLOSE_ARRAY] + rest;
    } else {
      var e := ElementsAt(u, d + 1);
      s := Bracketed(gap, e);
    }
    assert t == [OPEN_ARRAY] + t[1..];
  }

  lemma NoElementsAre(rest: seq<byte>)
    ensures GoodElements(NoElements) && ElementsFit(NoElements) && ElementsDepth(NoElements) == 0
    ensures ElementsMeaning(NoElements) == NoItems && WrittenElements(NoElements, rest) == rest
  {
  }

  lemma {:induction false} ElementsAt(t: seq<byte>, d: nat) returns (e: Elements)
    requires ParseItems(t, d).Some? && d <= NESTING_LIMIT
    ensures var r := ParseItems(t, d).value;
            && e.Element? && GoodElements(e) && ElementsFit(e) && d + ElementsDepth(e) <= NESTING_LIMIT
            && t == WrittenElements(e, [CLOSE_ARRAY] + r.rest) && ElementsMeaning(e) == r.value
    decreases |t|, 2
  {
    hide ParseValue, Skip, Good, NumbersFit, Depth, Meaning, Written, Blank;
    var r := ParseItems(t, d).value;
    var before := SkipSplit(t);
    var v := ParseValue(Skip(t), d).value;
    var value := ValueAt(Skip(t), d);
    var after := SkipSplit(v.rest);
    var u := Skip(v.rest);
    if u[0] == COMMA {
      var next := ElementsAt(u[1..], d);
      e := Element(before, value, after, next);
      assert u == [COMMA] + u[1..];
    } else {
      e := Element(before, value, after, NoElements);
      assert u == [CLOSE_ARRAY] + u[1..];
    }
  }

  lemma {:induction false} ObjectAt(t: seq<byte>, d: nat) returns (s: Syntax)
    requires t != [] && t[0] == OPEN_OBJECT && ParseObject(t, d).Some? && d <= NESTING_LIMIT
    ensures var r := ParseObject(t, d).value;
            && s.Braced? && Good(s) && NumbersFit(s) && d + Depth(s) <= NESTING_LIMIT
            && t == Written(s, r.rest) && Meaning(s) == r.value
    decreases |t|, 0
  {
    hide ParseMembers, Skip, GoodFields, FieldsFit, FieldsDepth, FieldsMeaning, WrittenFields;
    var rest := ParseObject(t, d).value.rest;
    var gap := SkipSplit(t[1..]);
    var u := Skip(t[1..]);
    if u[0] == CLOSE_OBJECT {
      NoFieldsAre([CLOSE_OBJECT] + rest);
      s := Braced(gap, NoFields);
      assert u == [CLOSE_OBJECT] + rest;
    } else {
      var f := FieldsAt(u, d + 1);
      s := Braced(gap, f);
    }
    assert t == [OPEN_OBJECT] + t[1..];
  }

  lemma NoFieldsAre(rest: seq<byte>)
    ensures GoodFields(NoFields) && FieldsFit(NoFields) && FieldsDepth(NoFields) == 0
    ensures FieldsMeaning(NoFields) == NoMembers && WrittenFields(NoFields, rest) == rest
  {
  }

  lemma {:induction false} FieldsAt(t: seq<byte>, d: nat) returns (f: Fields)
    requires ParseMembers(t, d).Some? && d <= NESTING_LIMIT
    ensures var r := ParseMembers(t, d).value;
            && f.Field? && GoodFields(f) && FieldsFit(f) && d + FieldsDepth(f) <= NESTING_LIMIT
            && t == WrittenFields(f, [CLOSE_OBJECT] + r.rest) && FieldsMeaning(f) == r.value
    decreases |t|, 2
  {
    hide ParseValue, ParseString, Skip, Good, NumbersFit, Depth, Meaning, Written, Blank, GoodBody, Kept, Literal;
    var before := SkipSplit(t);
    var k := ParseString(Skip(t)).value;
    var key := LiteralAt(Skip(t));
    var between := SkipSplit(k.rest);
    var c := Skip(k.rest);
    var lead := SkipSplit(c[1..]);
    var v := ParseValue(Skip(c[1..]), d).value;
    var value := ValueAt(Skip(c[1..]), d);
    var after := SkipSplit(v.rest);
    var u := Skip(v.rest);
    assert c == [COLON] + c[1..];
    if u[0] == COMMA {
      var next := FieldsAt(u[1..], d);
      f := Field(before, key, between, lead, value, after, next);
      assert u == [COMMA] + u[1..];
    } else {
      f := Field(before, key, between, lead, value, after, NoFields);
      assert u == [CLOSE_OBJECT] + u[1..];
    }
  }

  // ----- Documents -----

  lemma EndsWith(s: Syntax)
    requires Good(s)
    ensures var t := Written(s, []); t != [] && t[|t| - 1] != 0
  {
    hide BodyText, WrittenElements, WrittenFields, StrtodLength, GoodBody;
    match s
    case Word(v) =>
    case Numeral(token) => assert token + [] == token;
    case Quoted(body) =>
    case Bracketed(gap, elements) =>
      ElementsThen(elements, [], [CLOSE_ARRAY]);
      assert [] + [CLOSE_ARRAY] == [CLOSE_ARRAY] + [];
    case Braced(gap, fields) =>
      FieldsThen(fields, [], [CLOSE_OBJECT]);
      assert [] + [CLOSE_OBJECT] == [CLOSE_OBJECT] + [];
  }

  /** A text of the grammar within the parser's limits; a number by itself is what the parser takes of it. */
  ghost predicate Readable(before: seq<byte>, s: Syntax, after: seq<byte>) {
    && Blank(before) && Good(s) && NumbersFit(s) && Depth(s) <= 1000
    && (s.Numeral? ==> Taken(s.token, after + [0]))
  }

  /** How an accepted text is written. */
  lemma DocumentAt(text: seq<byte>) returns (mark: bool, before: seq<byte>, s: Syntax, after: seq<byte>)
    requires Parse(text).Some?
    ensures Readable(before, s, after) && text == Document(mark, before, s, after) && Parse(text) == Some(Meaning(s))
  {
    hide ParseValue, Skip, Good, NumbersFit, Depth, Meaning, Written, Taken;
    var t := text + [0];
    mark := SkipBom(t) != t;
    var u := SkipBom(t);
    var front := if mark then BYTE_ORDER_MARK else [];
    MarkAt(t);
    before := SkipSplit(u);
    var val := Skip(u);
    s := ValueAt(val, 0);
    var rest := ParseValue(val, 0).value.rest;
    TerminatorLeft(front, before, s, rest, text);
    after := rest[..|rest| - 1];
    assert rest == after + [0];
    Unterminated(front, before, s, after, text);
  }

  lemma Unterminated(front: seq<byte>, before: seq<byte>, s: Syntax, after: seq<byte>, text: seq<byte>)
    requires text + [0] == front + (before + Written(s, after + [0]))
    ensures text == front + (before + Written(s, after))
  {
    hide *;
    WrittenThen(s, after, [0]);
    var w := Written(s, after);
    assert front + (before + (w + [0])) == front + (before + w) + [0];
    assert text == (text + [0])[..|text|];
    assert front + (before + w) == (front + (before + w) + [0])[..|front + (before + w)|];
  }

  lemma MarkAt(t: seq<byte>)
    ensures var u := SkipBom(t); t == (if u != t then BYTE_ORDER_MARK else []) + u
  {
  }

  /** The terminator is never part of a value. */
  lemma TerminatorLeft(front: seq<byte>, before: seq<byte>, s: Syntax, rest: seq<byte>, text: seq<byte>)
    requires Good(s) && text + [0] == front + (before + Written(s, rest))
    ensures rest != [] && rest[|rest| - 1] == 0
  {
    hide *;
    var w := Written(s, []);
    WrittenThen(s, [], rest);
    assert [] + rest == rest;
    EndsWith(s);
    LastOf(w, rest);
    LastOf(before, w + rest);
    LastOf(front, before + (w + rest));
    LastOf(text, [0]);
  }

  lemma LastOf(a: seq<byte>, b: seq<byte>)
    ensures b != [] ==> (a + b)[|a + b| - 1] == b[|b| - 1]
    ensures b == [] ==> a + b == a
  {
  }

  lemma ReadableReads(mark: bool, before: seq<byte>, s: Syntax, after: seq<byte>)
    requires Readable(before, s, after)
    ensures Parse(Document(mark, before, s, after)) == Some(Meaning(s))
  {
    hide ParseValue, Good, NumbersFit, Depth, Meaning, Written, Taken, Document, Parse;
    DocumentStarts(mark, before, s, after);
    ValueReads(s, after + [0], 0);
  }

  ghost predicate Writes(mark: bool, before: seq<byte>, s: Syntax, after: seq<byte>, text: seq<byte>)
    ensures Writes(mark, before, s, after, text) ==> Good(s)
  {
    Readable(before, s, after) && text == Document(mark, before, s, after)
  }

  /**
   * What cJSON_Parse accepts, exactly: the texts of the grammar, within the limits on nesting and numbers, with
   * anything behind them; and the value it returns is the one they mean. Beyond RFC 8259 the grammar has control
   * characters in blanks and strings, leading zeros and bare points in numbers, and malformed unit escapes.
   */
  lemma ParsesExactly(text: seq<byte>, v: Json)
    ensures Parse(text) == Some(v) <==>
      exists mark, before, s, after :: Writes(mark, before, s, after, text) && Meaning(s) == v
  {
    hide Parse, Meaning, Document, Readable;
    if Parse(text) == Some(v) {
      var mark, before, s, after := DocumentAt(text);
      assert Writes(mark, before, s, after, text);
    } else if mark, before, s, after :| Writes(mark, before, s, after, text) && Meaning(s) == v {
      ReadableReads(mark, before, s, after);
    }
  }

  // ----- An input outside RFC 8259 -----

  const LOOSE_UNIT: seq<byte> := [BACKSLASH, 0x75, 0x5a, 0x5a, 0x5a, 0x5a]

  /** A unit escape without hexadecimal digits is accepted, and ends the value of its string. */
  lemma LooseUnitAccepted()
    ensures Parse([QUOTE] + LOOSE_UNIT + [QUOTE]) == Some(String([]))
  {
    var body := Body([], LOOSE_UNIT);
    LooseUnitGood();
    hide LooseTail, Parse;
    DocumentReads(false, [], Quoted(body), []);
    assert Document(false, [], Quoted(body), []) == [QUOTE] + LOOSE_UNIT + [QUOTE];
  }

  lemma LooseUnitGood()
    ensures LooseTail(LOOSE_UNIT)
  {
    var t := LOOSE_UNIT + [QUOTE];
    hide Decode;
    QuoteCloses([]);
    assert [QUOTE] + [] == [QUOTE];
    assert LOOSE_UNIT[6..] + [QUOTE] == [QUOTE] && LOOSE_UNIT[2..6][0] == 0x5a;
    PlainQuote([0x5a, 0x5a, 0x5a, 0x5a], [QUOTE]);
    EscapedQuote([0x5a, 0x5a, 0x5a, 0x5a] + [QUOTE], 0x75);
    assert t == [BACKSLASH, 0x75] + ([0x5a, 0x5a, 0x5a, 0x5a] + [QUOTE]);
  }
}
