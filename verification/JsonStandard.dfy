/** RFC 8259 and RFC 3629 in their own numbers, and what cJSON's reader and printer have to do with them. */
module JsonStandard {
  import opened Bytes
  import opened JsonText
  import opened JsonParse
  import opened JsonGrammar
  import opened JsonReading
  import opened JsonRoundTrip

  function Ascii(s: string): (b: seq<byte>)
    ensures |b| == |s| && forall i :: 0 <= i < |s| ==> b[i] == s[i] as int % 0x100
  {
    seq(|s|, i requires 0 <= i < |s| => s[i] as int % 0x100)
  }

  // ----- Hexadecimal digits and short escapes: section 7 of RFC 8259 -----

  predicate HexValue(c: byte, d: int) {
    0 <= d < 16 && (c == "0123456789abcdef"[d] as int || c == "0123456789ABCDEF"[d] as int)
  }

  lemma HexDigitExact(c: byte, d: nat)
    ensures HexDigit(c) == Some(d) <==> HexValue(c, d)
  {
  }

  ghost predicate FourDigits(h: seq<byte>, n: int) {
    && |h| == 4
    && exists a, b, c, d :: HexValue(h[0], a) && HexValue(h[1], b) && HexValue(h[2], c) && HexValue(h[3], d)
        && n == 0x1000 * a + 0x100 * b + 0x10 * c + d
  }

  lemma Hex4Exact(h: seq<byte>, n: nat)
    requires |h| == 4
    ensures FourHex(h) && Hex4(h) == n <==> FourDigits(h, n)
    ensures !FourHex(h) ==> Hex4(h) == 0
  {
    hide HexDigit, HexValue;
    if FourDigits(h, n) {
      var a, b, c, d :| HexValue(h[0], a) && HexValue(h[1], b) && HexValue(h[2], c) && HexValue(h[3], d)
          && n == 0x1000 * a + 0x100 * b + 0x10 * c + d;
      HexRange(h[0], a);
      HexRange(h[1], b);
      HexRange(h[2], c);
      HexRange(h[3], d);
      HexDigitExact(h[0], a);
      HexDigitExact(h[1], b);
      HexDigitExact(h[2], c);
      HexDigitExact(h[3], d);
    } else if FourHex(h) {
      HexDigitExact(h[0], HexDigit(h[0]).value);
      HexDigitExact(h[1], HexDigit(h[1]).value);
      HexDigitExact(h[2], HexDigit(h[2]).value);
      HexDigitExact(h[3], HexDigit(h[3]).value);
    }
  }

  lemma HexRange(c: byte, d: int)
    ensures HexValue(c, d) ==> 0 <= d < 16
  {
  }

  /** The eight short escapes: the byte behind the backslash, and the byte it stands for. */
  predicate ShortFor(c: byte, b: byte) {
    exists i :: 0 <= i < 8 && c == "\"\\/bfnrt"[i] as int && b == [0x22, 0x5c, 0x2f, 0x08, 0x0c, 0x0a, 0x0d, 0x09][i]
  }

  lemma ShortForIs(c: byte, b: byte)
    ensures ShortFor(c, b) <==>
      || (c == 0x22 && b == 0x22) || (c == 0x5c && b == 0x5c) || (c == 0x2f && b == 0x2f) || (c == 0x62 && b == 0x08)
      || (c == 0x66 && b == 0x0c) || (c == 0x6e && b == 0x0a) || (c == 0x72 && b == 0x0d) || (c == 0x74 && b == 0x09)
  {
    var s, t := "\"\\/bfnrt", [0x22, 0x5c, 0x2f, 0x08, 0x0c, 0x0a, 0x0d, 0x09];
    assert s[0] == '\"' && s[1] == '\\' && s[2] == '/' && s[3] == 'b' && s[4] == 'f' && s[5] == 'n' && s[6] == 'r'
        && s[7] == 't';
  }

  lemma SimpleEscapeExact(c: byte, b: byte)
    ensures SimpleEscape(c) == Some(b) <==> ShortFor(c, b)
  {
    hide ShortFor;
    ShortForIs(c, b);
  }

  // ----- UTF-8: section 3 of RFC 3629 -----

  /** What an octet adds to the number its mark stands for. */
  function Above(b: byte, mark: byte): int {
    b as int - mark as int
  }

  predicate Follows(b: byte) {
    0x80 <= b < 0xc0
  }

  /** The octets of a code point: which length is for which range, and the bits each octet has of it. */
  predicate Utf8Of(u: seq<byte>, cp: int) {
    match |u|
    case 1 => 0 <= cp < 0x80 && u[0] == cp
    case 2 =>
      0x80 <= cp < 0x800 && u[0] >= 0xc0 && Follows(u[1]) && cp == 0x40 * Above(u[0], 0xc0) + Above(u[1], 0x80)
    case 3 =>
      && 0x800 <= cp < 0x1_0000 && u[0] >= 0xe0 && Follows(u[1]) && Follows(u[2])
      && cp == 0x1000 * Above(u[0], 0xe0) + 0x40 * Above(u[1], 0x80) + Above(u[2], 0x80)
    case 4 =>
      && 0x1_0000 <= cp < 0x11_0000 && u[0] >= 0xf0 && Follows(u[1]) && Follows(u[2]) && Follows(u[3])
      && cp == 0x4_0000 * Above(u[0], 0xf0) + 0x1000 * Above(u[1], 0x80) + 0x40 * Above(u[2], 0x80) + Above(u[3], 0x80)
    case _ => false
  }

  lemma Utf8Exact(u: seq<byte>, cp: nat)
    requires cp < 0x11_0000
    ensures Utf8(cp) == u <==> Utf8Of(u, cp)
  {
    hide Utf8, Utf8Of;
    Utf8Has(cp);
    if Utf8Of(u, cp) {
      Utf8Unique(u, cp);
    }
  }

  lemma SixBits(n: nat)
    ensures n == 0x40 * (n / 0x40) + n % 0x40
  {
  }

  lemma Utf8Has(cp: nat)
    requires cp < 0x11_0000
    ensures Utf8Of(Utf8(cp), cp)
  {
    SixBits(cp);
    SixBits(cp / 0x40);
    SixBits(cp / 0x1000);
    assert cp / 0x40 / 0x40 == cp / 0x1000 && cp / 0x1000 / 0x40 == cp / 0x4_0000;
  }

  lemma Utf8Unique(u: seq<byte>, cp: nat)
    requires cp < 0x11_0000 && Utf8Of(u, cp)
    ensures Utf8(cp) == u
  {
    match |u|
    case 1 =>
    case 2 =>
    case 3 => ThreeGroups(cp, Above(u[0], 0xe0), Above(u[1], 0x80), Above(u[2], 0x80));
    case _ => FourGroups(cp, Above(u[0], 0xf0), Above(u[1], 0x80), Above(u[2], 0x80), Above(u[3], 0x80));
  }

  lemma ThreeGroups(n: nat, a: int, b: int, c: int)
    requires 0 <= b < 0x40 && 0 <= c < 0x40 && n == 0x1000 * a + 0x40 * b + c
    ensures n / 0x1000 == a && n / 0x40 % 0x40 == b && n % 0x40 == c
  {
    assert n / 0x40 == 0x40 * a + b;
  }

  lemma FourGroups(n: nat, a: int, b: int, c: int, d: int)
    requires 0 <= b < 0x40 && 0 <= c < 0x40 && 0 <= d < 0x40 && n == 0x4_0000 * a + 0x1000 * b + 0x40 * c + d
    ensures n / 0x4_0000 == a && n / 0x1000 % 0x40 == b && n / 0x40 % 0x40 == c && n % 0x40 == d
  {
    assert n / 0x40 == 0x1000 * a + 0x40 * b + c && n / 0x1000 == 0x40 * a + b;
  }

  // ----- The characters of a string -----

  /** Six bytes that escape a UTF-16 unit. */
  ghost predicate EscapesUnit(t: seq<byte>, u: int) {
    |t| == 6 && t[0] == 0x5c && t[1] == 0x75 && FourDigits(t[2..], u)
  }

  /** Bytes that escape a code point: one unit, or for those beyond 0xFFFF a surrogate pair. */
  ghost predicate EscapesPoint(t: seq<byte>, cp: int) {
    || (EscapesUnit(t, cp) && !(0xd800 <= cp < 0xe000))
    || (|t| == 12 && 0x1_0000 <= cp < 0x11_0000
        && EscapesUnit(t[..6], 0xd800 + (cp - 0x1_0000) / 0x400)
        && EscapesUnit(t[6..], 0xdc00 + (cp - 0x1_0000) % 0x400))
  }

  /**
   * What one character of a string may be written as, and the bytes it stands for. The standard has no control
   * characters among those written as they are; the reader takes them too.
   */
  ghost predicate Spells(text: seq<byte>, bytes: seq<byte>) {
    || (|text| == 1 && text[0] != 0x22 && text[0] != 0x5c && bytes == text)
    || (|text| == 2 && text[0] == 0x5c && |bytes| == 1 && ShortFor(text[1], bytes[0]))
    || (exists cp :: EscapesPoint(text, cp) && Utf8Of(bytes, cp))
  }

  lemma UnitSpells(h: seq<byte>, n: nat)
    requires |h| == 4
    ensures FourHex(h) && Hex4(h) == n <==> EscapesUnit(UnitText(h), n)
  {
    hide FourHex, Hex4, FourDigits;
    Hex4Exact(h, n);
    assert UnitText(h)[2..] == h;
  }

  lemma PairPoint(high: nat, low: nat)
    requires 0xd800 <= high < 0xdc00 && 0xdc00 <= low < 0xe000
    ensures var cp := 0x1_0000 + 0x400 * (high - 0xd800) + (low - 0xdc00);
            && 0x1_0000 <= cp < 0x11_0000
            && high == 0xd800 + (cp - 0x1_0000) / 0x400 && low == 0xdc00 + (cp - 0x1_0000) % 0x400
  {
  }

  /** Every piece of the reader's grammar spells its bytes by the standard. */
  lemma PieceSpells(p: Piece)
    requires GoodPiece(p)
    ensures Spells(PieceText(p), PieceBytes(p))
  {
    hide FourHex, Hex4, Utf8, Utf8Of, ShortFor, SimpleEscape, EscapesUnit;
    match p
    case Plain(b) =>
    case Short(c) =>
      SimpleEscapeExact(c, SimpleEscape(c).value);
    case Unit(h) =>
      FourLong(h);
      UnitSpells(h, Hex4(h));
      Utf8Exact(PieceBytes(p), Hex4(h));
      assert EscapesPoint(PieceText(p), Hex4(h));
    case Pair(high, low) =>
      FourLong(high);
      FourLong(low);
      UnitSpells(high, Hex4(high));
      UnitSpells(low, Hex4(low));
      var a, b := Hex4(high), Hex4(low);
      var cp := 0x1_0000 + 0x400 * (a - 0xd800) + (b - 0xdc00);
      PairPoint(a, b);
      Utf8Exact(PieceBytes(p), cp);
      var t := PieceText(p);
      assert t[..6] == UnitText(high) && t[6..] == UnitText(low);
      assert EscapesPoint(t, cp);
  }

  lemma FourLong(h: seq<byte>)
    requires FourHex(h)
    ensures |h| == 4
  {
  }

  /** And every character the standard spells is a piece, with those bytes. */
  lemma SpelledPiece(text: seq<byte>, bytes: seq<byte>) returns (p: Piece)
    requires Spells(text, bytes)
    ensures GoodPiece(p) && PieceText(p) == text && PieceBytes(p) == bytes
  {
    hide FourHex, Hex4, Utf8, Utf8Of, ShortFor, SimpleEscape, FourDigits;
    if |text| == 1 && text[0] != 0x22 && text[0] != 0x5c && bytes == text {
      p := Plain(text[0]);
    } else if |text| == 2 && text[0] == 0x5c && |bytes| == 1 && ShortFor(text[1], bytes[0]) {
      p := Short(text[1]);
      SimpleEscapeExact(text[1], bytes[0]);
    } else {
      var cp :| EscapesPoint(text, cp) && Utf8Of(bytes, cp);
      PointRange(text, cp);
      Utf8Exact(bytes, cp);
      if |text| == 6 {
        p := Unit(text[2..]);
        assert UnitText(text[2..]) == text;
        UnitSpells(text[2..], cp);
      } else {
        var a, b := text[..6], text[6..];
        p := Pair(a[2..], b[2..]);
        assert UnitText(a[2..]) == a && UnitText(b[2..]) == b && a + b == text;
        UnitSpells(a[2..], 0xd800 + (cp - 0x1_0000) / 0x400);
        UnitSpells(b[2..], 0xdc00 + (cp - 0x1_0000) % 0x400);
      }
    }
  }

  lemma PointRange(text: seq<byte>, cp: int)
    requires EscapesPoint(text, cp)
    ensures 0 <= cp < 0x11_0000 && (|text| == 6 || |text| == 12) && (|text| == 6 <==> EscapesUnit(text, cp))
  {
  }

  /** A character of a string: its text and its bytes. */
  datatype Character = Character(text: seq<byte>, bytes: seq<byte>)

  function Texts(s: seq<Character>): seq<byte> {
    if s == [] then [] else s[0].text + Texts(s[1..])
  }

  function BytesOf(s: seq<Character>): seq<byte> {
    if s == [] then [] else s[0].bytes + BytesOf(s[1..])
  }

  lemma {:induction false} SpelledPieces(s: seq<Character>) returns (pieces: seq<Piece>)
    requires forall i :: 0 <= i < |s| ==> Spells(s[i].text, s[i].bytes)
    ensures GoodPieces(pieces) && PiecesText(pieces) == Texts(s) && PiecesBytes(pieces) == BytesOf(s)
  {
    hide GoodPiece, PieceText, PieceBytes, Spells;
    if s == [] {
      return [];
    }
    var p := SpelledPiece(s[0].text, s[0].bytes);
    var rest := SpelledPieces(s[1..]);
    pieces := [p] + rest;
    assert pieces[1..] == rest;
  }

  /** A C string is what stands in front of the first zero. */
  lemma {:induction false} CStringExact(s: seq<byte>)
    ensures var c := CString(s); c <= s && NulFree(c) && (|c| < |s| ==> s[|c|] == 0)
  {
    if s != [] && s[0] != 0 {
      CStringExact(s[1..]);
    }
  }

  lemma BodyWithoutTail(pieces: seq<Piece>, rest: seq<byte>)
    requires GoodPieces(pieces)
    ensures var body := Body(pieces, []);
            && GoodBody(body) && Kept(body) == CString(PiecesBytes(pieces))
            && Literal(body, rest) == [0x22] + PiecesText(pieces) + [0x22] + rest
  {
    hide GoodPieces, PiecesText, PiecesBytes, CString;
    assert PiecesText(pieces) + [] == PiecesText(pieces);
  }

  /**
   * Every string literal of section 7 of RFC 8259, its characters as they are or escaped in any way: parse_string
   * returns their bytes up to the first zero.
   */
  lemma StringReads(s: seq<Character>, rest: seq<byte>)
    requires forall i :: 0 <= i < |s| ==> Spells(s[i].text, s[i].bytes)
    ensures ParseString([0x22] + Texts(s) + [0x22] + rest) == Some(Parsed(CString(BytesOf(s)), rest))
  {
    hide *;
    var pieces := SpelledPieces(s);
    var body := Body(pieces, []);
    BodyWithoutTail(pieces, rest);
    LiteralReads(body, rest);
  }

  /** For instance, whatever the case of the digits. */
  lemma UpperCaseDigits()
    ensures ParseString(Ascii("\"\\u00E9\"")) == Some(Parsed([0xc3, 0xa9], []))
  {
    var c := Character([0x5c, 0x75, 0x30, 0x30, 0x45, 0x39], [0xc3, 0xa9]);
    assert Ascii("\"\\u00E9\"") == [0x22] + c.text + [0x22] + [];
    UpperCaseSpells(c);
    hide *;
    StringReads([c], []);
    OneCharacter(c);
    NulFreeKept([0xc3, 0xa9]);
    TwoNotNul();
  }

  lemma TwoNotNul()
    ensures NulFree([0xc3, 0xa9])
  {
  }

  lemma UpperCaseSpells(c: Character)
    requires c == Character([0x5c, 0x75, 0x30, 0x30, 0x45, 0x39], [0xc3, 0xa9])
    ensures Spells(c.text, c.bytes)
  {
    assert c.text[2..] == [0x30, 0x30, 0x45, 0x39];
    assert HexValue(0x30, 0) && HexValue(0x45, 14) && HexValue(0x39, 9);
    FourDigitsAre(c.text[2..], 0, 0, 14, 9);
    CharacterSpells(c, 0xe9);
    hide FourDigits, HexValue, Spells;
  }

  lemma FourDigitsAre(h: seq<byte>, a: int, b: int, c: int, d: int)
    requires |h| == 4 && HexValue(h[0], a) && HexValue(h[1], b) && HexValue(h[2], c) && HexValue(h[3], d)
    ensures FourDigits(h, 0x1000 * a + 0x100 * b + 0x10 * c + d)
  {
    hide HexValue;
    HexRange(h[0], a);
    HexRange(h[1], b);
    HexRange(h[2], c);
    HexRange(h[3], d);
  }

  lemma CharacterSpells(c: Character, cp: int)
    ensures EscapesPoint(c.text, cp) && Utf8Of(c.bytes, cp) ==> Spells(c.text, c.bytes)
  {
    hide EscapesPoint, Utf8Of;
  }

  lemma OneCharacter(c: Character)
    ensures Texts([c]) == c.text && BytesOf([c]) == c.bytes
  {
    assert [c][1..] == [];
    assert Texts([]) == [] && BytesOf([]) == [];
  }

  lemma NulFreeKept(s: seq<byte>)
    ensures NulFree(s) ==> CString(s) == s
  {
  }

  // ----- Texts of RFC 8259 -----

  /** The words, punctuation and digits of the model are the characters of the standard. */
  lemma Characters()
    ensures [QUOTE, BACKSLASH, COMMA, COLON] == Ascii("\"\\,:")
    ensures [OPEN_ARRAY, CLOSE_ARRAY, OPEN_OBJECT, CLOSE_OBJECT] == Ascii("[]{}")
    ensures [NEWLINE, TAB, SPACE] == Ascii("\n\t ")
    ensures NULL_TEXT == Ascii("null") && FALSE_TEXT == Ascii("false") && TRUE_TEXT == Ascii("true")
    ensures forall c: byte :: IsDigit(c) <==> '0' as int <= c <= '9' as int
    ensures forall c: byte :: IsNumberByte(c) <==> IsDigit(c) || c in Ascii("+-.eE")
  {
    var t := Ascii("+-.eE");
    assert t == [0x2b, 0x2d, 0x2e, 0x65, 0x45];
  }

  /** Section 2: the four blanks. */
  predicate StandardBlank(b: seq<byte>) {
    forall i :: 0 <= i < |b| ==> b[i] == 0x20 || b[i] == 0x09 || b[i] == 0x0a || b[i] == 0x0d
  }

  /** Section 6: no leading zero but zero itself. */
  ghost predicate StandardNumber(t: seq<byte>) {
    exists minus, whole, fraction, e :: NumeralText(minus, whole, fraction, e) == t && GoodNumeral(whole, fraction, e)
        && (whole[0] == 0x30 ==> |whole| == 1)
  }

  /** Section 7: no control character as it is. */
  predicate StandardBody(body: Body) {
    body.tail == [] && GoodPieces(body.pieces)
    && forall i :: 0 <= i < |body.pieces| && body.pieces[i].Plain? ==> body.pieces[i].b >= 0x20
  }

  ghost predicate Standard(s: Syntax) {
    match s
    case Word(v) => v.Null? || v.False? || v.True?
    case Numeral(token) => StandardNumber(token)
    case Quoted(body) => StandardBody(body)
    case Bracketed(gap, elements) => StandardBlank(gap) && StandardElements(elements)
    case Braced(gap, fields) => StandardBlank(gap) && StandardFields(fields)
  }

  ghost predicate StandardElements(e: Elements) {
    e.Element? ==>
      StandardBlank(e.before) && Standard(e.value) && StandardBlank(e.after) && StandardElements(e.next)
  }

  ghost predicate StandardFields(f: Fields) {
    f.Field? ==>
      && StandardBlank(f.before) && StandardBody(f.key) && StandardBlank(f.between) && StandardBlank(f.lead)
      && Standard(f.value) && StandardBlank(f.after) && StandardFields(f.next)
  }

  lemma StandardNumberIsLiteral(t: seq<byte>)
    requires StandardNumber(t)
    ensures IsLiteral(t)
  {
    hide IsLiteral, NumeralText, GoodNumeral;
    var minus, whole, fraction, e :| NumeralText(minus, whole, fraction, e) == t && GoodNumeral(whole, fraction, e);
    NumeralIsLiteral(minus, whole, fraction, e);
  }

  /** The reader's grammar has every text of the standard. */
  lemma {:induction false} StandardIsGood(s: Syntax)
    requires Standard(s)
    ensures Good(s)
    decreases s
  {
    hide IsLiteral, StandardNumber, GoodPieces;
    match s
    case Numeral(token) => StandardNumberIsLiteral(token);
    case Bracketed(gap, elements) => StandardElementsAreGood(elements);
    case Braced(gap, fields) => StandardFieldsAreGood(fields);
    case _ =>
  }

  lemma {:induction false} StandardElementsAreGood(e: Elements)
    requires StandardElements(e)
    ensures GoodElements(e)
    decreases e
  {
    hide Good, Standard;
    if e.Element? {
      StandardIsGood(e.value);
      StandardElementsAreGood(e.next);
    }
  }

  lemma {:induction false} StandardFieldsAreGood(f: Fields)
    requires StandardFields(f)
    ensures GoodFields(f)
    decreases f
  {
    hide Good, Standard, GoodPieces;
    if f.Field? {
      StandardIsGood(f.value);
      StandardFieldsAreGood(f.next);
    }
  }

  /**
   * Every text of RFC 8259, with a byte order mark or without: the value written if arrays and objects are nested
   * at most 1000 deep and no number has more than 63 bytes, and null otherwise.
   */
  lemma StandardTextReads(mark: bool, before: seq<byte>, s: Syntax, after: seq<byte>)
    requires StandardBlank(before) && Standard(s) && StandardBlank(after) && (s.Numeral? ==> |s.token| <= 63)
    ensures Good(s) && Parse(Document(mark, before, s, after))
        == if Depth(s) <= 1000 && NumbersFit(s) then Some(Meaning(s)) else None
  {
    hide Standard, Good, Parse, Document, Depth, Meaning, NumbersFit;
    StandardIsGood(s);
    DocumentReads(mark, before, s, after);
  }

  // ----- What the printer writes -----

  /** The printer's text for one byte of a string: a short escape where there is one, lower-case digits, or the byte. */
  lemma EscapeByteExact(b: byte)
    ensures EscapeByte(b) == (
      if b == 0x22 then [0x5c, 0x22] else if b == 0x5c then [0x5c, 0x5c]
      else if b == 0x08 then [0x5c, 'b' as int] else if b == 0x0c then [0x5c, 'f' as int]
      else if b == 0x0a then [0x5c, 'n' as int] else if b == 0x0d then [0x5c, 'r' as int]
      else if b == 0x09 then [0x5c, 't' as int]
      else if b < 0x20 then
        var digits := "0123456789abcdef";
        [0x5c, 'u' as int, '0' as int, '0' as int, digits[b / 16] as int, digits[b % 16] as int]
      else [b])
  {
    if b < 0x20 {
      LowerHexExact(b / 16);
      LowerHexExact(b % 16);
    }
  }

  lemma LowerHexExact(n: nat)
    requires n < 16
    ensures LowerHex(n) == "0123456789abcdef"[n] as int
  {
  }

  /** No control character, but tabs and line feeds where `format` has them. */
  predicate NoControl(t: seq<byte>, format: bool) {
    forall i :: 0 <= i < |t| ==> t[i] >= 0x20 || (format && (t[i] == 0x09 || t[i] == 0x0a))
  }

  lemma {:induction false} EscapeHasNoControl(s: seq<byte>)
    ensures NoControl(Escape(s), false)
  {
    if s != [] {
      EscapeHasNoControl(s[1..]);
    }
  }

  /** Whatever is printed, there is no control character in it but the tabs and line feeds of the format. */
  lemma {:induction false} TextHasNoControl(v: Json, depth: nat, format: bool)
    requires Printable(v)
    ensures NoControl(Text(v, depth, format), format)
    decreases v
  {
    hide Escape, StrtodLength, ItemsText, MembersText;
    match v
    case String(s) => EscapeHasNoControl(s);
    case Array(items) => ItemsHaveNoControl(items, depth + 1, format);
    case Object(members) => MembersHaveNoControl(members, depth + 1, format);
    case _ =>
  }

  lemma {:induction false} ItemsHaveNoControl(items: Items, depth: nat, format: bool)
    requires PrintableItems(items)
    ensures NoControl(ItemsText(items, depth, format), format)
    decreases items
  {
    hide Text;
    if items.Item? {
      TextHasNoControl(items.value, depth, format);
      ItemsHaveNoControl(items.next, depth, format);
    }
  }

  lemma {:induction false} MembersHaveNoControl(members: Members, depth: nat, format: bool)
    requires PrintableMembers(members)
    ensures NoControl(MembersText(members, depth, format), format)
    decreases members
  {
    hide Text, Escape, StringText, Line;
    if members.Member? {
      EscapeHasNoControl(members.key);
      TextHasNoControl(members.value, depth, format);
      MembersHaveNoControl(members.next, depth, format);
      var e := Entry(members.key, members.value);
      LineHasNoControl(e, depth, format);
      LineIs(e, depth, format, members.next);
    }
  }

  lemma LineHasNoControl(e: Entry, depth: nat, format: bool)
    requires NoControl(Escape(e.key), false) && NoControl(Text(e.value, depth, format), format)
    ensures NoControl(Line(e, depth, format), format)
  {
    hide Text, Escape;
  }

  /** The numbers of a value are numbers of the standard. */
  ghost predicate StandardNumbers(v: Json) {
    match v
    case Number(token) => StandardNumber(token)
    case Array(items) => StandardItems(items)
    case Object(members) => StandardMembers(members)
    case _ => true
  }

  ghost predicate StandardItems(items: Items) {
    items.Item? ==> StandardNumbers(items.value) && StandardItems(items.next)
  }

  ghost predicate StandardMembers(members: Members) {
    members.Member? ==> StandardNumbers(members.value) && StandardMembers(members.next)
  }

  lemma BodyIsStandard(s: seq<byte>)
    ensures StandardBody(BodyOf(s))
  {
    hide GoodPiece, PieceText, PieceBytes, PiecesText, PiecesBytes, Escape;
    StringLaidOut(s);
  }

  lemma {:induction false} LayoutIsStandard(v: Json, depth: nat, format: bool)
    requires StandardNumbers(v)
    ensures Standard(Layout(v, depth, format))
    decreases v
  {
    hide StandardNumber, StandardBody, LayoutItems, LayoutMembers, BodyOf;
    match v
    case String(s) => BodyIsStandard(s);
    case Array(items) => ItemsAreStandard(items, depth + 1, format, []);
    case Object(members) => MembersAreStandard(members, depth + 1, format, [], if format then Tabs(depth) else []);
    case _ =>
  }

  lemma {:induction false} ItemsAreStandard(items: Items, depth: nat, format: bool, before: seq<byte>)
    requires StandardItems(items) && StandardBlank(before)
    ensures StandardElements(LayoutItems(items, depth, format, before))
    decreases items
  {
    hide Layout, Standard, StandardNumbers;
    if items.Item? {
      LayoutIsStandard(items.value, depth, format);
      ItemsAreStandard(items.next, depth, format, if format then [SPACE] else []);
    }
  }

  lemma {:induction false} MembersAreStandard(
      members: Members, depth: nat, format: bool, pre: seq<byte>, tail: seq<byte>)
    requires StandardMembers(members) && StandardBlank(pre) && StandardBlank(tail)
    ensures StandardFields(LayoutMembers(members, depth, format, pre, tail))
    decreases members
  {
    hide Layout, Standard, StandardNumbers, StandardBody, BodyOf;
    if members.Member? {
      BodyIsStandard(members.key);
      LayoutIsStandard(members.value, depth, format);
      MembersAreStandard(members.next, depth, format, if format then [NEWLINE] else [], tail);
    }
  }

  /** What is printed for a value is a text of RFC 8259 that writes this value, if its numbers are the standard's. */
  lemma PrintedIsStandard(v: Json, depth: nat, format: bool)
    requires Printable(v) && StandardNumbers(v)
    ensures exists s :: Standard(s) && Good(s) && Written(s, []) == Text(v, depth, format) && Meaning(s) == v
  {
    hide Layout, Standard, Good, Meaning, Written, Text, StandardNumbers, Depth, NumbersFit;
    var s := Layout(v, depth, format);
    LayoutIsStandard(v, depth, format);
    LayoutMeans(v, depth, format);
    LayoutText(v, depth, format, []);
    assert Text(v, depth, format) + [] == Text(v, depth, format);
  }

  // ----- Formatting -----

  /** The same text without its blanks. */
  function Bare(s: Syntax): Syntax {
    match s
    case Bracketed(_, elements) => Bracketed([], BareElements(elements))
    case Braced(_, fields) => Braced([], BareFields(fields))
    case _ => s
  }

  function BareElements(e: Elements): Elements {
    if e.NoElements? then e else Element([], Bare(e.value), [], BareElements(e.next))
  }

  function BareFields(f: Fields): Fields {
    if f.NoFields? then f else Field([], f.key, [], [], Bare(f.value), [], BareFields(f.next))
  }

  /** Formatted or not, and however deep, the same tokens are printed: only blanks differ, and unformatted has none. */
  lemma {:induction false} OnlyBlanksDiffer(v: Json, depth: nat, format: bool, other: nat)
    ensures Bare(Layout(v, depth, format)) == Layout(v, other, false)
    decreases v
  {
    hide BodyOf, LayoutItems, LayoutMembers, BareElements, BareFields;
    match v
    case Array(items) => OnlyItemBlanksDiffer(items, depth + 1, format, [], other + 1);
    case Object(members) =>
      OnlyMemberBlanksDiffer(members, depth + 1, format, [], if format then Tabs(depth) else [], other + 1);
      NoBareFields();
    case _ =>
  }

  lemma NoBareFields()
    ensures BareFields(NoFields) == NoFields
  {
  }

  lemma {:induction false} OnlyItemBlanksDiffer(items: Items, depth: nat, format: bool, before: seq<byte>, other: nat)
    ensures BareElements(LayoutItems(items, depth, format, before)) == LayoutItems(items, other, false, [])
    decreases items
  {
    hide Layout, Bare;
    if items.Item? {
      OnlyBlanksDiffer(items.value, depth, format, other);
      OnlyItemBlanksDiffer(items.next, depth, format, if format then [SPACE] else [], other);
    }
  }

  lemma {:induction false} OnlyMemberBlanksDiffer(
      members: Members, depth: nat, format: bool, pre: seq<byte>, tail: seq<byte>, other: nat)
    ensures BareFields(LayoutMembers(members, depth, format, pre, tail)) == LayoutMembers(members, other, false, [], [])
    decreases members
  {
    hide Layout, Bare, BodyOf;
    if members.Member? {
      OnlyBlanksDiffer(members.value, depth, format, other);
      OnlyMemberBlanksDiffer(members.next, depth, format, if format then [NEWLINE] else [], tail, other);
    }
  }

  function Join(parts: seq<seq<byte>>, sep: seq<byte>): seq<byte> {
    if parts == [] then [] else if |parts| == 1 then parts[0] else parts[0] + sep + Join(parts[1..], sep)
  }

  function ItemsOf(vs: seq<Json>): Items {
    if vs == [] then NoItems else Item(vs[0], ItemsOf(vs[1..]))
  }

  datatype Entry = Entry(key: seq<byte>, value: Json)

  function MembersOf(es: seq<Entry>): Members {
    if es == [] then NoMembers else Member(es[0].key, es[0].value, MembersOf(es[1..]))
  }

  /** The texts of the elements, one level deeper. */
  function ElementTexts(vs: seq<Json>, depth: nat, format: bool): seq<seq<byte>> {
    seq(|vs|, i requires 0 <= i < |vs| => Text(vs[i], depth, format))
  }

  /** A member on its own line: tabs, the key, a colon, a tab, the value. */
  function Line(e: Entry, depth: nat, format: bool): seq<byte> {
    if format then seq(depth, _ => 0x09) + StringText(e.key) + [0x3a, 0x09] + Text(e.value, depth, true)
    else StringText(e.key) + [0x3a] + Text(e.value, depth, false)
  }

  function Lines(es: seq<Entry>, depth: nat, format: bool): seq<seq<byte>> {
    seq(|es|, i requires 0 <= i < |es| => Line(es[i], depth, format))
  }

  /** An array is printed as its elements, with a comma, and a space if formatted, between them. */
  lemma ArrayPrinted(vs: seq<Json>, depth: nat, format: bool)
    ensures Text(Array(ItemsOf(vs)), depth, format)
         == [0x5b] + Join(ElementTexts(vs, depth + 1, format), if format then [0x2c, 0x20] else [0x2c]) + [0x5d]
  {
    hide ItemsText, ItemsOf, Join, ElementTexts;
    ItemsJoined(vs, depth + 1, format);
  }

  lemma {:induction false} ItemsJoined(vs: seq<Json>, depth: nat, format: bool)
    ensures ItemsText(ItemsOf(vs), depth, format)
         == Join(ElementTexts(vs, depth, format), if format then [0x2c, 0x20] else [0x2c])
  {
    hide Text;
    if vs != [] {
      ItemsJoined(vs[1..], depth, format);
      assert ElementTexts(vs, depth, format)[1..] == ElementTexts(vs[1..], depth, format);
      assert vs[1..] != [] <==> ItemsOf(vs[1..]).Item?;
      var text := Text(vs[0], depth, format);
      if vs[1..] == [] {
        assert text + [] + [] == text;
      }
    }
  }

  /** An object is printed as its members with commas between them; formatted, each has its line and its tabs. */
  lemma ObjectPrinted(es: seq<Entry>, depth: nat, format: bool)
    ensures var lines := Lines(es, depth + 1, format);
            Text(Object(MembersOf(es)), depth, format) == (
              if !format then [0x7b] + Join(lines, [0x2c]) + [0x7d]
              else [0x7b, 0x0a] + Join(lines, [0x2c, 0x0a]) + (if es == [] then [] else [0x0a])
                   + seq(depth, _ => 0x09) + [0x7d])
  {
    hide MembersText, MembersOf, Join, Lines;
    MembersJoined(es, depth + 1, format);
  }

  lemma {:induction false} MembersJoined(es: seq<Entry>, depth: nat, format: bool)
    ensures var lines := Lines(es, depth, format);
            MembersText(MembersOf(es), depth, format) == (
              if !format then Join(lines, [0x2c])
              else Join(lines, [0x2c, 0x0a]) + (if es == [] then [] else [0x0a]))
  {
    hide Text, StringText;
    if es != [] {
      MembersJoined(es[1..], depth, format);
      assert Lines(es, depth, format)[1..] == Lines(es[1..], depth, format);
      assert es[1..] != [] <==> MembersOf(es[1..]).Member?;
      LineIs(es[0], depth, format, MembersOf(es[1..]));
    }
  }

  lemma LineIs(e: Entry, depth: nat, format: bool, next: Members)
    ensures MembersText(Member(e.key, e.value, next), depth, format)
         == Line(e, depth, format) + (if next.Member? then [0x2c] else []) + (if format then [0x0a] else [])
            + MembersText(next, depth, format)
  {
    hide Text, StringText;
    var key, v := StringText(e.key), Text(e.value, depth, format);
    if format {
      assert Tabs(depth) + key + [COLON] + [TAB] + v == Tabs(depth) + key + [0x3a, 0x09] + v;
    } else {
      assert [] + key + [COLON] + [] + v == key + [0x3a] + v;
    }
  }

  /** A value to look at. */
  function Example(): Json {
    Object(Member([0x61], Array(Item(Number([0x31]), Item(Null, NoItems))), Member([0x62], String([0x0a]), NoMembers)))
  }

  /** It is printed as this text, and read from it. */
  lemma ExampleText()
    ensures var text := Ascii("{\"a\":[1,null],\"b\":\"\\n\"}");
            Text(Example(), 0, false) == text && Parse(text) == Some(Example())
  {
    hide *;
    ExamplePrinted();
    ExamplePrintable();
    PrintedTextParses(Example(), false);
  }

  lemma ExamplePrinted()
    ensures Text(Example(), 0, false) == Ascii("{\"a\":[1,null],\"b\":\"\\n\"}")
  {
    hide *;
    var es := [Entry([0x61], Array(Item(Number([0x31]), Item(Null, NoItems)))), Entry([0x62], String([0x0a]))];
    ExampleIs(es);
    FirstLine(es[0]);
    SecondLine(es[1]);
    ObjectPrinted(es, 0, false);
    TwoLines(es);
    ExampleAscii();
  }

  lemma ExampleIs(es: seq<Entry>)
    requires es == [Entry([0x61], Array(Item(Number([0x31]), Item(Null, NoItems)))), Entry([0x62], String([0x0a]))]
    ensures Object(MembersOf(es)) == Example()
  {
    assert es[1..] == [es[1]] && es[1..][1..] == [];
    assert MembersOf([]) == NoMembers && MembersOf(es[1..]) == Member(es[1].key, es[1].value, NoMembers);
  }

  lemma FirstLine(e: Entry)
    requires e == Entry([0x61], Array(Item(Number([0x31]), Item(Null, NoItems))))
    ensures Line(e, 1, false) == [0x22, 0x61, 0x22, 0x3a, 0x5b, 0x31, 0x2c, 0x6e, 0x75, 0x6c, 0x6c, 0x5d]
  {
    OneByte(0x61);
    ExampleArray();
    hide Text, StringText;
  }

  lemma SecondLine(e: Entry)
    requires e == Entry([0x62], String([0x0a]))
    ensures Line(e, 1, false) == [0x22, 0x62, 0x22, 0x3a, 0x22, 0x5c, 0x6e, 0x22]
  {
    OneByte(0x62);
    NewlineText();
    hide Text, StringText;
  }

  lemma ExampleAscii()
    ensures Ascii("{\"a\":[1,null],\"b\":\"\\n\"}")
         == [0x7b] + ([0x22, 0x61, 0x22, 0x3a, 0x5b, 0x31, 0x2c, 0x6e, 0x75, 0x6c, 0x6c, 0x5d] + [0x2c]
             + [0x22, 0x62, 0x22, 0x3a, 0x22, 0x5c, 0x6e, 0x22]) + [0x7d]
  {
  }

  lemma TwoLines(es: seq<Entry>)
    requires |es| == 2
    ensures Join(Lines(es, 1, false), [0x2c]) == Line(es[0], 1, false) + [0x2c] + Line(es[1], 1, false)
  {
    hide Line;
    var lines := Lines(es, 1, false);
    assert lines[1..] == [lines[1]];
  }

  lemma NewlineText()
    ensures Text(String([0x0a]), 1, false) == [0x22, 0x5c, 0x6e, 0x22]
  {
    OneByte(0x0a);
    hide StringText;
  }

  lemma ExampleArray()
    ensures Text(Array(Item(Number([0x31]), Item(Null, NoItems))), 1, false)
         == [0x5b, 0x31, 0x2c, 0x6e, 0x75, 0x6c, 0x6c, 0x5d]
  {
  }

  lemma OneByte(b: byte)
    ensures StringText([b]) == [0x22] + EscapeByte(b) + [0x22]
  {
    assert [b][1..] == [] && Escape([]) == [];
  }

  lemma ExamplePrintable()
    ensures Printable(Example()) && Nesting(Example()) <= 1000
  {
    NumeralIsLiteral(false, [0x31], None, NoExponent);
    assert NumeralText(false, [0x31], None, NoExponent) == [0x31];
    hide IsToken, NumeralText;
  }
}
