/** JSON texts as RFC 8259 lets them be written, and the little more that cJSON_Parse takes, piece by piece. */
module JsonGrammar {
  import opened Bytes
  import opened JsonText
  import opened JsonParse

  // ----- Concrete syntax -----

  /** One step of a string literal: a byte as it is, a short escape, or one or two escapes of UTF-16 units. */
  datatype Piece =
    | Plain(b: byte)
    | Short(c: byte)
    | Unit(unit: seq<byte>)
    | Pair(high: seq<byte>, low: seq<byte>)

  /**
   * What stands between the quotes. The tail is empty in RFC 8259; the parser also takes a malformed unit escape
   * and much behind it, and drops the string's value from there on.
   */
  datatype Body = Body(pieces: seq<Piece>, tail: seq<byte>)

  /** A JSON value as written: with the blanks at every place where the grammar allows them. */
  datatype Syntax =
    | Word(word: Json)
    | Numeral(token: seq<byte>)
    | Quoted(body: Body)
    | Bracketed(gap: seq<byte>, elements: Elements)
    | Braced(gap: seq<byte>, fields: Fields)

  datatype Elements = NoElements | Element(before: seq<byte>, value: Syntax, after: seq<byte>, next: Elements)

  datatype Fields =
    | NoFields
    | Field(before: seq<byte>, key: Body, between: seq<byte>, lead: seq<byte>, value: Syntax, after: seq<byte>,
            next: Fields)

  /** Space, tab, line feed and carriage return, and whatever else the parser skips like them. */
  predicate Blank(b: seq<byte>) {
    forall i :: 0 <= i < |b| ==> b[i] <= 32
  }

  /** Nothing that could be read as more of a number follows. */
  predicate Delimited(rest: seq<byte>) {
    rest == [] || !IsNumberByte(rest[0])
  }

  predicate FourHex(h: seq<byte>) {
    |h| == 4 && forall i :: 0 <= i < 4 ==> HexDigit(h[i]).Some?
  }

  /** Escaped surrogates have to come in pairs. */
  predicate GoodPiece(p: Piece) {
    match p
    case Plain(b) => b != QUOTE && b != BACKSLASH
    case Short(c) => SimpleEscape(c).Some?
    case Unit(h) => FourHex(h) && !(0xd800 <= Hex4(h) < 0xe000)
    case Pair(high, low) =>
      FourHex(high) && FourHex(low) && 0xd800 <= Hex4(high) < 0xdc00 && 0xdc00 <= Hex4(low) < 0xe000
  }

  predicate GoodPieces(pieces: seq<Piece>) {
    forall i :: 0 <= i < |pieces| ==> GoodPiece(pieces[i])
  }

  /** A malformed unit escape, with what both passes of the decoder get over behind it. */
  predicate LooseTail(tail: seq<byte>) {
    && |tail| >= 6 && tail[..2] == [BACKSLASH, 0x75] && !FourHex(tail[2..6])
    && ClosingQuote(tail + [QUOTE]) == Some(|tail|) && Decode(tail[6..] + [QUOTE], |tail| - 6).Some?
  }

  predicate GoodBody(body: Body) {
    GoodPieces(body.pieces) && (body.tail == [] || LooseTail(body.tail))
  }

  /** A decimal floating-point literal that starts as a JSON number does, whatever its length. */
  predicate IsLiteral(t: seq<byte>) {
    && t != [] && (t[0] == 0x2d || IsDigit(t[0]))
    && (forall i :: 0 <= i < |t| ==> IsNumberByte(t[i])) && StrtodLength(t) == |t|
  }

  predicate Good(s: Syntax) {
    match s
    case Word(v) => v.Null? || v.False? || v.True?
    case Numeral(token) => IsLiteral(token)
    case Quoted(body) => GoodBody(body)
    case Bracketed(gap, elements) => Blank(gap) && GoodElements(elements)
    case Braced(gap, fields) => Blank(gap) && GoodFields(fields)
  }

  predicate GoodElements(e: Elements) {
    e.Element? ==> Blank(e.before) && Good(e.value) && Blank(e.after) && GoodElements(e.next)
  }

  predicate GoodFields(f: Fields) {
    f.Field? ==>
      && Blank(f.before) && GoodBody(f.key) && Blank(f.between) && Blank(f.lead)
      && Good(f.value) && Blank(f.after) && GoodFields(f.next)
  }

  // ----- What is written -----

  function UnitText(h: seq<byte>): seq<byte> {
    [BACKSLASH, 0x75] + h
  }

  function PieceText(p: Piece): seq<byte> {
    match p
    case Plain(b) => [b]
    case Short(c) => [BACKSLASH, c]
    case Unit(h) => UnitText(h)
    case Pair(high, low) => UnitText(high) + UnitText(low)
  }

  function PiecesText(pieces: seq<Piece>): seq<byte> {
    if pieces == [] then [] else PieceText(pieces[0]) + PiecesText(pieces[1..])
  }

  function BodyText(body: Body): seq<byte> {
    PiecesText(body.pieces) + body.tail
  }

  function Literal(body: Body, rest: seq<byte>): seq<byte> {
    [QUOTE] + (BodyText(body) + ([QUOTE] + rest))
  }

  /** The text of `s` with `rest` behind it. */
  function Written(s: Syntax, rest: seq<byte>): seq<byte>
    decreases s, 0
  {
    match s
    case Word(v) => Text(v, 0, false) + rest
    case Numeral(token) => token + rest
    case Quoted(body) => Literal(body, rest)
    case Bracketed(gap, elements) => [OPEN_ARRAY] + (gap + WrittenElements(elements, [CLOSE_ARRAY] + rest))
    case Braced(gap, fields) => [OPEN_OBJECT] + (gap + WrittenFields(fields, [CLOSE_OBJECT] + rest))
  }

  function WrittenElements(e: Elements, rest: seq<byte>): seq<byte>
    decreases e, 0
  {
    match e
    case NoElements => rest
    case Element(before, v, after, next) => before + Written(v, after + AfterElement(next, rest))
  }

  function AfterElement(next: Elements, rest: seq<byte>): seq<byte>
    decreases next, 1
  {
    if next.NoElements? then rest else [COMMA] + WrittenElements(next, rest)
  }

  function WrittenFields(f: Fields, rest: seq<byte>): seq<byte>
    decreases f, 0
  {
    match f
    case NoFields => rest
    case Field(before, key, between, lead, v, after, next) =>
      before + Literal(key, between + ([COLON] + (lead + Written(v, after + AfterField(next, rest)))))
  }

  function AfterField(next: Fields, rest: seq<byte>): seq<byte>
    decreases next, 1
  {
    if next.NoFields? then rest else [COMMA] + WrittenFields(next, rest)
  }

  // ----- What it means -----

  function PieceBytes(p: Piece): seq<byte>
    requires GoodPiece(p)
  {
    match p
    case Plain(b) => [b]
    case Short(c) => [SimpleEscape(c).value]
    case Unit(h) => Utf8(Hex4(h))
    case Pair(high, low) => Utf8(0x1_0000 + 0x400 * (Hex4(high) - 0xd800) + (Hex4(low) - 0xdc00))
  }

  function PiecesBytes(pieces: seq<Piece>): seq<byte>
    requires GoodPieces(pieces)
  {
    if pieces == [] then [] else PieceBytes(pieces[0]) + PiecesBytes(pieces[1..])
  }

  /** What a C string keeps: the bytes before an escaped NUL. */
  function Kept(body: Body): seq<byte>
    requires GoodBody(body)
  {
    CString(PiecesBytes(body.pieces))
  }

  /** The value written. */
  function Meaning(s: Syntax): Json
    requires Good(s)
  {
    match s
    case Word(v) => v
    case Numeral(token) => Number(token)
    case Quoted(body) => String(Kept(body))
    case Bracketed(_, elements) => Array(ElementsMeaning(elements))
    case Braced(_, fields) => Object(FieldsMeaning(fields))
  }

  function ElementsMeaning(e: Elements): Items
    requires GoodElements(e)
  {
    if e.NoElements? then NoItems else Item(Meaning(e.value), ElementsMeaning(e.next))
  }

  function FieldsMeaning(f: Fields): Members
    requires GoodFields(f)
  {
    if f.NoFields? then NoMembers
    else Member(Kept(f.key), Meaning(f.value), FieldsMeaning(f.next))
  }

  /** How many brackets and braces are open at the innermost place. */
  function Depth(s: Syntax): nat {
    match s
    case Bracketed(_, elements) => 1 + ElementsDepth(elements)
    case Braced(_, fields) => 1 + FieldsDepth(fields)
    case _ => 0
  }

  function ElementsDepth(e: Elements): nat {
    if e.NoElements? then 0 else Max(Depth(e.value), ElementsDepth(e.next))
  }

  function FieldsDepth(f: Fields): nat {
    if f.NoFields? then 0 else Max(Depth(f.value), FieldsDepth(f.next))
  }

  /** No number has more bytes than the parser looks at. */
  predicate NumbersFit(s: Syntax) {
    match s
    case Numeral(token) => |token| <= 63
    case Bracketed(_, elements) => ElementsFit(elements)
    case Braced(_, fields) => FieldsFit(fields)
    case _ => true
  }

  predicate ElementsFit(e: Elements) {
    e.Element? ==> NumbersFit(e.value) && ElementsFit(e.next)
  }

  predicate FieldsFit(f: Fields) {
    f.Field? ==> NumbersFit(f.value) && FieldsFit(f.next)
  }

  // ----- Blanks -----

  lemma {:induction false} BlanksSkipped(b: seq<byte>, t: seq<byte>)
    requires Blank(b) && t != [] && t[0] > 32
    ensures Skip(b + t) == t
  {
    if b == [] {
      assert b + t == t;
    } else {
      assert (b + t)[1..] == b[1..] + t;
      BlanksSkipped(b[1..], t);
    }
  }

  lemma SolidStart(t: seq<byte>)
    requires t != [] && t[0] > 32
    ensures Skip(t) == t
  {
    BlanksSkipped([], t);
    assert [] + t == t;
  }

  // ----- Strings -----

  lemma ShiftedQuote(u: seq<byte>, c: byte)
    requires c != QUOTE && c != BACKSLASH
    ensures ClosingQuote([c] + u).Some? == ClosingQuote(u).Some?
    ensures ClosingQuote(u).Some? ==> ClosingQuote([c] + u).value == ClosingQuote(u).value + 1
  {
    assert ([c] + u)[1..] == u;
  }

  lemma EscapedQuote(u: seq<byte>, c: byte)
    ensures ClosingQuote([BACKSLASH, c] + u).Some? == ClosingQuote(u).Some?
    ensures ClosingQuote(u).Some? ==> ClosingQuote([BACKSLASH, c] + u).value == ClosingQuote(u).value + 2
  {
    assert ([BACKSLASH, c] + u)[2..] == u;
  }

  lemma {:induction false} PlainQuote(p: seq<byte>, u: seq<byte>)
    requires ClosingQuote(u).Some? && forall i :: 0 <= i < |p| ==> p[i] != QUOTE && p[i] != BACKSLASH
    ensures ClosingQuote(p + u) == Some(ClosingQuote(u).value + |p|)
  {
    hide ClosingQuote;
    if p == [] {
      assert p + u == u;
    } else {
      PlainQuote(p[1..], u);
      ShiftedQuote(p[1..] + u, p[0]);
      assert p + u == [p[0]] + (p[1..] + u);
    }
  }

  /** The first pass steps over an escaped UTF-16 unit. */
  lemma UnitSkipped(h: seq<byte>, u: seq<byte>)
    requires FourHex(h) && ClosingQuote(u).Some?
    ensures ClosingQuote(UnitText(h) + u) == Some(ClosingQuote(u).value + 6)
  {
    hide ClosingQuote;
    PlainQuote(h, u);
    EscapedQuote(h + u, 0x75);
    assert UnitText(h) + u == [BACKSLASH, 0x75] + (h + u);
  }

  lemma PairSkipped(high: seq<byte>, low: seq<byte>, u: seq<byte>)
    requires FourHex(high) && FourHex(low) && ClosingQuote(u).Some?
    ensures ClosingQuote(UnitText(high) + UnitText(low) + u) == Some(ClosingQuote(u).value + 12)
  {
    hide *;
    UnitSkipped(low, u);
    UnitSkipped(high, UnitText(low) + u);
    assert UnitText(high) + UnitText(low) + u == UnitText(high) + (UnitText(low) + u);
  }

  /** The first pass steps over a piece. */
  lemma PieceSkipped(p: Piece, u: seq<byte>)
    requires GoodPiece(p) && ClosingQuote(u).Some?
    ensures ClosingQuote(PieceText(p) + u) == Some(ClosingQuote(u).value + |PieceText(p)|)
  {
    hide ClosingQuote, FourHex, Hex4;
    match p
    case Plain(b) => ShiftedQuote(u, b);
    case Short(c) => EscapedQuote(u, c);
    case Unit(h) =>
      UnitSkipped(h, u);
      UnitSize(h);
    case Pair(high, low) =>
      PairSkipped(high, low, u);
      UnitSize(high);
      UnitSize(low);
  }

  lemma UnitSize(h: seq<byte>)
    requires FourHex(h)
    ensures |UnitText(h)| == 6
  {
  }

  lemma UnitDecoded(h: seq<byte>, u: seq<byte>, n: nat)
    requires FourHex(h) && !(0xd800 <= Hex4(h) < 0xe000) && n < |u|
    ensures Decode(UnitText(h) + u, n + 6) == Prepend(Utf8(Hex4(h)), Decode(u, n))
  {
    hide FourHex, Hex4, Utf8, Prepend;
    UnitSize(h);
    var t := UnitText(h) + u;
    assert t[2..6] == h && t[6..] == u;
  }

  lemma PairDecoded(high: seq<byte>, low: seq<byte>, u: seq<byte>, n: nat)
    requires FourHex(high) && FourHex(low) && 0xd800 <= Hex4(high) < 0xdc00 && 0xdc00 <= Hex4(low) < 0xe000 && n < |u|
    ensures Decode(UnitText(high) + UnitText(low) + u, n + 12)
         == Prepend(Utf8(0x1_0000 + 0x400 * (Hex4(high) - 0xd800) + (Hex4(low) - 0xdc00)), Decode(u, n))
  {
    hide FourHex, Hex4, Utf8, Prepend;
    UnitSize(high);
    UnitSize(low);
    var t := UnitText(high) + UnitText(low) + u;
    assert t[2..6] == high && t[8..12] == low && t[12..] == u;
    assert t[6] == UnitText(low)[0] && t[7] == UnitText(low)[1];
    assert Hex4(high) % 0x400 == Hex4(high) - 0xd800 && Hex4(low) % 0x400 == Hex4(low) - 0xdc00;
  }

  /** The second pass decodes a piece. */
  lemma PieceDecoded(p: Piece, u: seq<byte>, n: nat)
    requires GoodPiece(p) && n < |u|
    ensures Decode(PieceText(p) + u, n + |PieceText(p)|) == Prepend(PieceBytes(p), Decode(u, n))
  {
    hide FourHex, Hex4, Utf8, Prepend, UnitText, Utf16Literal;
    var t := PieceText(p) + u;
    match p
    case Plain(b) => assert t[1..] == u;
    case Short(c) =>
      ShortIsNoUnit(c);
      assert t[2..] == u;
    case Unit(h) =>
      UnitDecoded(h, u, n);
      UnitSize(h);
    case Pair(high, low) =>
      PairDecoded(high, low, u, n);
      UnitSize(high);
      UnitSize(low);
  }

  lemma ShortIsNoUnit(c: byte)
    requires SimpleEscape(c).Some?
    ensures c != 0x75
  {
  }

  lemma QuoteCloses(rest: seq<byte>)
    ensures ClosingQuote([QUOTE] + rest) == Some(0) && Decode([QUOTE] + rest, 0) == Some([])
  {
  }

  lemma PrependSome(front: seq<byte>, s: seq<byte>)
    ensures Prepend(front, Some(s)) == Some(front + s)
  {
  }

  lemma GoodRest(pieces: seq<Piece>)
    requires GoodPieces(pieces) && pieces != []
    ensures GoodPiece(pieces[0]) && GoodPieces(pieces[1..])
    ensures PiecesBytes(pieces) == PieceBytes(pieces[0]) + PiecesBytes(pieces[1..])
    ensures PiecesText(pieces) == PieceText(pieces[0]) + PiecesText(pieces[1..])
  {
  }

  /** Both passes over the pieces of a string, given what they make of what follows. */
  lemma {:induction false} PiecesRead(pieces: seq<Piece>, u: seq<byte>, n: nat, more: seq<byte>)
    requires GoodPieces(pieces) && n < |u| && ClosingQuote(u) == Some(n) && Decode(u, n) == Some(more)
    ensures ClosingQuote(PiecesText(pieces) + u) == Some(|PiecesText(pieces)| + n)
    ensures Decode(PiecesText(pieces) + u, |PiecesText(pieces)| + n) == Some(PiecesBytes(pieces) + more)
  {
    hide GoodPiece, GoodPieces, PieceText, PieceBytes, ClosingQuote, Decode, Prepend;
    if pieces == [] {
      assert PiecesText(pieces) + u == u && PiecesBytes(pieces) + more == more;
    } else {
      GoodRest(pieces);
      var p, e := PieceText(pieces[0]), PiecesText(pieces[1..]);
      PiecesRead(pieces[1..], u, n, more);
      PieceSkipped(pieces[0], e + u);
      PieceDecoded(pieces[0], e + u, |e| + n);
      PrependSome(PieceBytes(pieces[0]), PiecesBytes(pieces[1..]) + more);
      assert PiecesText(pieces) + u == p + (e + u);
      assert PieceBytes(pieces[0]) + (PiecesBytes(pieces[1..]) + more) == PiecesBytes(pieces) + more;
    }
  }

  /** The first pass does not look behind the closing quote. */
  lemma {:induction false} QuoteLocal(t: seq<byte>, rest: seq<byte>)
    ensures ClosingQuote(t).Some? ==> ClosingQuote(t + rest) == ClosingQuote(t)
    decreases |t|
  {
    if t != [] && t[0] != QUOTE {
      assert (t + rest)[1..] == t[1..] + rest;
      QuoteLocal(t[1..], rest);
      if |t| >= 2 {
        assert (t + rest)[2..] == t[2..] + rest;
        QuoteLocal(t[2..], rest);
      }
    }
  }

  lemma UnitLocal(t: seq<byte>, n: int, rest: seq<byte>)
    requires n <= |t|
    ensures Utf16Literal(t + rest, n) == Utf16Literal(t, n)
  {
    hide Hex4, Utf8;
    if n >= 6 {
      assert (t + rest)[2..6] == t[2..6];
    }
    if n >= 12 {
      assert (t + rest)[8..12] == t[8..12];
    }
  }

  lemma DropOfSum(t: seq<byte>, rest: seq<byte>, k: nat)
    requires k <= |t|
    ensures (t + rest)[k..] == t[k..] + rest
  {
  }

  /** Nor does the second. */
  lemma {:induction false} DecodeLocal(t: seq<byte>, n: int, rest: seq<byte>)
    requires n < |t|
    ensures Decode(t + rest, n) == Decode(t, n)
    decreases |t|
  {
    hide Utf16Literal, SimpleEscape, Prepend;
    if n > 0 {
      UnitLocal(t, n, rest);
      if t[0] != BACKSLASH {
        DropOfSum(t, rest, 1);
        DecodeLocal(t[1..], n - 1, rest);
      } else if t[1] == 0x75 {
        var u := Utf16Literal(t, n);
        if u.Some? {
          DropOfSum(t, rest, u.value.length);
          DecodeLocal(t[u.value.length..], n - u.value.length, rest);
        }
      } else {
        DropOfSum(t, rest, 2);
        DecodeLocal(t[2..], n - 2, rest);
      }
    }
  }

  /** A tail is got over, and puts a NUL in front of whatever it adds. */
  lemma TailRead(tail: seq<byte>, rest: seq<byte>) returns (more: seq<byte>)
    requires tail == [] || LooseTail(tail)
    ensures ClosingQuote(tail + ([QUOTE] + rest)) == Some(|tail|)
    ensures Decode(tail + ([QUOTE] + rest), |tail|) == Some(more) && (more == [] || more[0] == 0)
  {
    hide FourHex;
    var t := tail + [QUOTE];
    assert t + rest == tail + ([QUOTE] + rest);
    if tail == [] {
      assert tail + ([QUOTE] + rest) == [QUOTE] + rest;
      QuoteCloses(rest);
      more := [];
    } else {
      QuoteLocal(t, rest);
      DecodeLocal(t, |tail|, rest);
      var x := Decode(tail[6..] + [QUOTE], |tail| - 6).value;
      LooseUnitDecoded(tail);
      PrependSome([0], x);
      more := [0] + x;
    }
  }

  lemma BadHex(h: seq<byte>)
    requires |h| == 4 && !FourHex(h)
    ensures Hex4(h) == 0
  {
  }

  lemma LooseUnitDecoded(tail: seq<byte>)
    requires |tail| >= 6 && tail[..2] == [BACKSLASH, 0x75] && !FourHex(tail[2..6])
    ensures Decode(tail + [QUOTE], |tail|) == Prepend([0], Decode(tail[6..] + [QUOTE], |tail| - 6))
  {
    hide FourHex, Hex4, Prepend;
    var t := tail + [QUOTE];
    BadHex(tail[2..6]);
    assert t[0] == tail[..2][0] && t[1] == tail[..2][1] && t[2..6] == tail[2..6] && t[6..] == tail[6..] + [QUOTE];
  }

  lemma {:induction false} CutAtNul(a: seq<byte>, b: seq<byte>)
    requires b == [] || b[0] == 0
    ensures CString(a + b) == CString(a)
  {
    if a == [] {
      assert a + b == b;
    } else {
      assert (a + b)[1..] == a[1..] + b;
      CutAtNul(a[1..], b);
    }
  }

  lemma LiteralReads(body: Body, rest: seq<byte>)
    requires GoodBody(body)
    ensures ParseString(Literal(body, rest)) == Some(Parsed(Kept(body), rest))
  {
    hide ClosingQuote, Decode, GoodPieces, LooseTail, PiecesText, PiecesBytes, CString;
    var more := TailRead(body.tail, rest);
    var u := body.tail + ([QUOTE] + rest);
    PiecesRead(body.pieces, u, |body.tail|, more);
    CutAtNul(PiecesBytes(body.pieces), more);
    var t := Literal(body, rest);
    assert t[1..] == PiecesText(body.pieces) + u;
    assert t[|BodyText(body)| + 2..] == rest;
  }

  // ----- Numbers -----

  lemma {:induction false} RunOfToken(token: seq<byte>, rest: seq<byte>, room: nat)
    requires forall i :: 0 <= i < |token| ==> IsNumberByte(token[i])
    requires Delimited(rest)
    ensures NumberRun(token + rest, room) == if |token| <= room then |token| else room
  {
    if token == [] {
      assert token + rest == rest;
    } else if room > 0 {
      assert (token + rest)[1..] == token[1..] + rest;
      RunOfToken(token[1..], rest, room - 1);
    }
  }

  /** A literal of number bytes is taken whole exactly when it fits the parser's scratch buffer. */
  lemma NumberParses(token: seq<byte>, rest: seq<byte>)
    requires IsLiteral(token) && Delimited(rest)
    ensures ParseNumber(token + rest) == Some(Parsed(Number(token), rest)) <==> |token| <= 63
  {
    hide StrtodLength, NumberRun;
    RunOfToken(token, rest, 63);
    if |token| <= 63 {
      assert (token + rest)[..|token|] == token && (token + rest)[|token|..] == rest;
    } else {
      var n := StrtodLength((token + rest)[..63]);
      assert n > 0 ==> |(token + rest)[..n]| == n < |token|;
    }
  }

  // ----- The numbers of RFC 8259 -----

  datatype Exponent = NoExponent | Exponent(mark: byte, sign: seq<byte>, digits: seq<byte>)

  predicate AllDigits(s: seq<byte>) {
    forall i :: 0 <= i < |s| ==> IsDigit(s[i])
  }

  /** Section 6 of RFC 8259, leading zeros admitted; a fraction or exponent that is there has a digit. */
  predicate GoodNumeral(whole: seq<byte>, fraction: Option<seq<byte>>, e: Exponent) {
    whole != [] && LooseNumeral(whole, fraction, e) && (fraction.Some? ==> fraction.value != [])
  }

  /** What strtod takes of it: digits on one side of the point are enough. */
  predicate LooseNumeral(whole: seq<byte>, fraction: Option<seq<byte>>, e: Exponent) {
    && AllDigits(whole) && (fraction.Some? ==> AllDigits(fraction.value))
    && (whole == [] ==> fraction.Some? && fraction.value != [])
    && (e.Exponent? ==>
         && (e.mark == 0x65 || e.mark == 0x45) && (e.sign == [] || e.sign == [0x2b] || e.sign == [0x2d])
         && e.digits != [] && AllDigits(e.digits))
  }

  function FractionText(fraction: Option<seq<byte>>): seq<byte> {
    if fraction.None? then [] else [0x2e] + fraction.value
  }

  function ExponentText(e: Exponent): seq<byte> {
    if e.NoExponent? then [] else [e.mark] + (e.sign + e.digits)
  }

  function NumeralText(minus: bool, whole: seq<byte>, fraction: Option<seq<byte>>, e: Exponent): seq<byte> {
    (if minus then [0x2d] else []) + (whole + (FractionText(fraction) + ExponentText(e)))
  }

  lemma {:induction false} DigitsThen(s: seq<byte>, rest: seq<byte>)
    requires AllDigits(s) && (rest == [] || !IsDigit(rest[0]))
    ensures Digits(s + rest) == |s|
  {
    if s == [] {
      assert s + rest == rest;
    } else {
      assert (s + rest)[1..] == s[1..] + rest;
      DigitsThen(s[1..], rest);
    }
  }

  lemma StrtodTakes(minus: bool, whole: seq<byte>, f: seq<byte>, x: seq<byte>)
    requires (whole != [] || |f| > 1) && Digits(whole + (f + x)) == |whole|
    requires if whole == [] then minus else IsDigit(whole[0])
    requires FractionLength(f + x) == |f| && ExponentLength(x) == |x|
    ensures var t := (if minus then [0x2d] else []) + (whole + (f + x)); StrtodLength(t) == |t|
  {
    hide Digits, FractionLength, ExponentLength;
    var sign := if minus then 1 else 0;
    var t := (if minus then [0x2d] else []) + (whole + (f + x));
    assert t[sign..] == whole + (f + x);
    assert t[sign + |whole|..] == f + x;
    assert t[sign + |whole| + |f|..] == x;
  }

  lemma NumeralBytes(minus: bool, whole: seq<byte>, fraction: Option<seq<byte>>, e: Exponent)
    requires LooseNumeral(whole, fraction, e) && (whole == [] ==> minus)
    ensures var t := NumeralText(minus, whole, fraction, e);
            t != [] && (t[0] == 0x2d || IsDigit(t[0])) && forall i :: 0 <= i < |t| ==> IsNumberByte(t[i])
  {
    var f, x := FractionText(fraction), ExponentText(e);
    assert forall i :: 0 <= i < |f| ==> IsNumberByte(f[i]);
    assert forall i :: 0 <= i < |x| ==> IsNumberByte(x[i]);
    assert forall i :: 0 <= i < |whole| ==> IsNumberByte(whole[i]);
  }

  lemma WholePart(whole: seq<byte>, fraction: Option<seq<byte>>, e: Exponent)
    requires LooseNumeral(whole, fraction, e)
    ensures Digits(whole + (FractionText(fraction) + ExponentText(e))) == |whole|
  {
    hide Digits;
    DigitsThen(whole, FractionText(fraction) + ExponentText(e));
  }

  lemma FractionPart(whole: seq<byte>, fraction: Option<seq<byte>>, e: Exponent)
    requires LooseNumeral(whole, fraction, e)
    ensures FractionLength(FractionText(fraction) + ExponentText(e)) == |FractionText(fraction)|
  {
    hide Digits;
    var t, x := FractionText(fraction) + ExponentText(e), ExponentText(e);
    if fraction.Some? {
      assert t[1..] == fraction.value + x;
      DigitsThen(fraction.value, x);
    } else {
      assert t == x;
    }
  }

  lemma ExponentPart(whole: seq<byte>, fraction: Option<seq<byte>>, e: Exponent)
    requires LooseNumeral(whole, fraction, e)
    ensures ExponentLength(ExponentText(e)) == |ExponentText(e)|
  {
    hide Digits;
    var x := ExponentText(e);
    if e.Exponent? {
      assert x[1 + |e.sign|..] == e.digits + [];
      assert x[1..] == e.sign + e.digits;
      DigitsThen(e.digits, []);
    }
  }

  /** strtod takes such a numeral whole. */
  lemma NumeralTaken(minus: bool, whole: seq<byte>, fraction: Option<seq<byte>>, e: Exponent)
    requires LooseNumeral(whole, fraction, e) && (whole == [] ==> minus)
    ensures IsLiteral(NumeralText(minus, whole, fraction, e))
  {
    hide Digits, FractionText, ExponentText, FractionLength, ExponentLength, StrtodLength, IsNumberByte;
    NumeralBytes(minus, whole, fraction, e);
    WholePart(whole, fraction, e);
    FractionPart(whole, fraction, e);
    ExponentPart(whole, fraction, e);
    FractionSize(fraction);
    StrtodTakes(minus, whole, FractionText(fraction), ExponentText(e));
  }

  lemma FractionSize(fraction: Option<seq<byte>>)
    ensures fraction.Some? ==> |FractionText(fraction)| == 1 + |fraction.value|
  {
  }

  /** strtod takes every number of RFC 8259 whole; the parser's scratch buffer is the only limit. */
  lemma NumeralIsLiteral(minus: bool, whole: seq<byte>, fraction: Option<seq<byte>>, e: Exponent)
    requires GoodNumeral(whole, fraction, e)
    ensures var t := NumeralText(minus, whole, fraction, e);
            IsLiteral(t) && (IsToken(t) <==> |t| <= 63)
  {
    hide StrtodLength, NumeralText;
    NumeralTaken(minus, whole, fraction, e);
  }

  // ----- The other way: what a literal looks like -----

  lemma {:induction false} DigitsAre(s: seq<byte>)
    ensures AllDigits(s[..Digits(s)])
  {
    if s != [] && IsDigit(s[0]) {
      DigitsAre(s[1..]);
      assert s[..Digits(s)] == [s[0]] + s[1..][..Digits(s[1..])];
    }
  }

  lemma ExponentShape(x: seq<byte>) returns (e: Exponent)
    requires ExponentLength(x) == |x|
    ensures LooseNumeral([0x30], None, e) && x == ExponentText(e)
  {
    hide Digits;
    if x == [] {
      return NoExponent;
    }
    var k := if 1 < |x| && (x[1] == 0x2b || x[1] == 0x2d) then 2 else 1;
    DigitsAre(x[k..]);
    assert x[k..][..Digits(x[k..])] == x[k..];
    e := Exponent(x[0], x[1..k], x[k..]);
    assert x == [x[0]] + (x[1..k] + x[k..]);
    assert k == 2 ==> x[1..k] == [x[1]];
  }

  lemma FractionShape(t: seq<byte>) returns (fraction: Option<seq<byte>>)
    ensures t[..FractionLength(t)] == FractionText(fraction) && (fraction.Some? ==> AllDigits(fraction.value))
    ensures |FractionText(fraction)| > 1 ==> fraction.Some? && fraction.value != []
  {
    hide Digits;
    if t != [] && t[0] == 0x2e {
      DigitsAre(t[1..]);
      fraction := Some(t[1..][..Digits(t[1..])]);
      assert t[..FractionLength(t)] == [0x2e] + fraction.value;
    } else {
      fraction := None;
    }
  }

  /** Whatever the reader takes for a number is such a numeral. */
  lemma LiteralShape(t: seq<byte>)
      returns (minus: bool, whole: seq<byte>, fraction: Option<seq<byte>>, e: Exponent)
    requires IsLiteral(t)
    ensures LooseNumeral(whole, fraction, e) && (whole == [] ==> minus) && t == NumeralText(minus, whole, fraction, e)
  {
    hide Digits, FractionLength, ExponentLength, FractionText, ExponentText, IsNumberByte;
    minus := t[0] == 0x2d;
    var sign := if minus then 1 else 0;
    var u := t[sign..];
    var n := Digits(u);
    DigitsAre(u);
    whole := u[..n];
    assert t[sign + n..] == u[n..];
    var f := FractionLength(u[n..]);
    fraction := FractionShape(u[n..]);
    assert t[sign + n + f..] == u[n..][f..];
    e := ExponentShape(u[n..][f..]);
    assert u == whole + (u[n..][..f] + u[n..][f..]);
    if minus {
      assert t == [0x2d] + u;
    } else {
      DigitLeads(t);
      assert t == [] + u;
    }
    if whole == [] {
      assert |FractionText(fraction)| == f;
    }
  }

  lemma DigitLeads(t: seq<byte>)
    ensures t != [] && IsDigit(t[0]) ==> Digits(t) > 0
  {
  }

  ghost predicate LooselyWritten(t: seq<byte>) {
    exists minus, whole, fraction, e :: NumeralText(minus, whole, fraction, e) == t && LooseNumeral(whole, fraction, e)
        && (whole == [] ==> minus)
  }

  /**
   * What the reader takes whole for a number: a minus or none, digits with a point at the end, in front or among
   * them or none, the point not in front without a minus, and an exponent with a digit or none.
   */
  lemma LiteralExact(t: seq<byte>)
    ensures IsLiteral(t) <==> LooselyWritten(t)
  {
    hide IsLiteral, LooseNumeral, NumeralText;
    if IsLiteral(t) {
      var minus, whole, fraction, e := LiteralShape(t);
    } else if LooselyWritten(t) {
      var minus, whole, fraction, e :| NumeralText(minus, whole, fraction, e) == t && LooseNumeral(whole, fraction, e)
          && (whole == [] ==> minus);
      NumeralTaken(minus, whole, fraction, e);
    }
  }
}
