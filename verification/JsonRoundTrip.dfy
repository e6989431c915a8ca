/** Parsing what was printed gives the value back: printed text is one way to write the value. */
module JsonRoundTrip {
  import opened Bytes
  import opened JsonText
  import opened JsonParse
  import opened JsonGrammar
  import opened JsonReading

  // ----- How the printer lays a value out -----

  /** print_string_ptr's choice for one byte. */
  function PieceOf(b: byte): Piece {
    if b == BACKSLASH || b == QUOTE then Short(b)
    else if b == 0x08 then Short(0x62)
    else if b == 0x0c then Short(0x66)
    else if b == 0x0a then Short(0x6e)
    else if b == 0x0d then Short(0x72)
    else if b == 0x09 then Short(0x74)
    else if b < 32 then Unit([0x30, 0x30, LowerHex(b / 16), LowerHex(b % 16)])
    else Plain(b)
  }

  function PiecesOf(s: seq<byte>): (pieces: seq<Piece>)
    ensures |pieces| == |s| && forall i :: 0 <= i < |s| ==> pieces[i] == PieceOf(s[i])
  {
    if s == [] then [] else [PieceOf(s[0])] + PiecesOf(s[1..])
  }

  function BodyOf(s: seq<byte>): Body {
    Body(PiecesOf(s), [])
  }

  /** print_value's layout at a nesting depth. */
  function Layout(v: Json, depth: nat, format: bool): Syntax {
    match v
    case Number(token) => Numeral(token)
    case String(s) => Quoted(BodyOf(s))
    case Array(items) => Bracketed([], LayoutItems(items, depth + 1, format, []))
    case Object(members) =>
      var nl, tail := if format then [NEWLINE] else [], if format then Tabs(depth) else [];
      if members.NoMembers? then Braced(nl + tail, NoFields)
      else Braced(nl, LayoutMembers(members, depth + 1, format, [], tail))
    case _ => Word(v)
  }

  function LayoutItems(items: Items, depth: nat, format: bool, before: seq<byte>): Elements {
    match items
    case NoItems => NoElements
    case Item(v, next) =>
      Element(before, Layout(v, depth, format), [], LayoutItems(next, depth, format, if format then [SPACE] else []))
  }

  /** `pre` is the newline behind the member before, `tail` what stands before the closing brace. */
  function LayoutMembers(members: Members, depth: nat, format: bool, pre: seq<byte>, tail: seq<byte>): Fields {
    match members
    case NoMembers => NoFields
    case Member(key, v, next) =>
      var nl := if format then [NEWLINE] else [];
      Field(pre + (if format then Tabs(depth) else []), BodyOf(key), [], if format then [TAB] else [],
            Layout(v, depth, format), if next.Member? then [] else nl + tail,
            LayoutMembers(next, depth, format, nl, tail))
  }

  // ----- Strings -----

  lemma HexReadsBack(n: nat)
    requires n < 16
    ensures HexDigit(LowerHex(n)) == Some(n)
  {
  }

  lemma ByteLaidOut(b: byte)
    ensures GoodPiece(PieceOf(b)) && PieceText(PieceOf(b)) == EscapeByte(b) && PieceBytes(PieceOf(b)) == [b]
  {
    if b < 32 {
      HexReadsBack(0);
      HexReadsBack(b / 16);
      HexReadsBack(b % 16);
      assert Hex4([0x30, 0x30, LowerHex(b / 16), LowerHex(b % 16)]) == b;
    }
  }

  lemma {:induction false} StringLaidOut(s: seq<byte>)
    ensures GoodPieces(PiecesOf(s)) && PiecesText(PiecesOf(s)) == Escape(s) && PiecesBytes(PiecesOf(s)) == s
  {
    hide GoodPiece, PieceText, PieceBytes, PieceOf, EscapeByte;
    forall i | 0 <= i < |s| ensures GoodPiece(PiecesOf(s)[i]) {
      ByteLaidOut(s[i]);
    }
    if s != [] {
      StringLaidOut(s[1..]);
      ByteLaidOut(s[0]);
      assert PiecesOf(s)[1..] == PiecesOf(s[1..]);
      assert [s[0]] + s[1..] == s;
    }
  }

  /** Both passes of the string decoder over a printed string. */
  lemma StringReadsBack(s: seq<byte>, rest: seq<byte>)
    ensures ClosingQuote(Escape(s) + [QUOTE] + rest) == Some(|Escape(s)|)
    ensures Decode(Escape(s) + [QUOTE] + rest, |Escape(s)|) == Some(s)
  {
    hide *;
    StringLaidOut(s);
    QuoteCloses(rest);
    PiecesRead(PiecesOf(s), [QUOTE] + rest, 0, []);
    assert Escape(s) + [QUOTE] + rest == Escape(s) + ([QUOTE] + rest) && s + [] == s;
  }

  lemma BodyMeans(s: seq<byte>)
    ensures GoodBody(BodyOf(s)) && (NulFree(s) ==> Kept(BodyOf(s)) == s)
  {
    hide PiecesOf, GoodPieces, PiecesBytes, CString;
    StringLaidOut(s);
  }

  // ----- Layouts are well formed and mean the value -----

  lemma {:induction false} LayoutMeans(v: Json, depth: nat, format: bool)
    requires Printable(v)
    ensures Good(Layout(v, depth, format)) && Meaning(Layout(v, depth, format)) == v
    ensures Depth(Layout(v, depth, format)) == Nesting(v) && NumbersFit(Layout(v, depth, format))
    decreases v
  {
    hide *;
    if v.Array? {
      ArrayMeans(v, depth, format);
      ItemsMean(v.items, depth + 1, format, []);
    } else if v.Object? {
      ObjectMeans(v, depth, format);
      MembersMean(v.members, depth + 1, format, [], if format then Tabs(depth) else []);
    } else {
      LeafMeans(v, depth, format);
    }
  }

  lemma LeafMeans(v: Json, depth: nat, format: bool)
    requires Printable(v) && !v.Array? && !v.Object?
    ensures var s := Layout(v, depth, format); Good(s) && Meaning(s) == v && Depth(s) == Nesting(v) && NumbersFit(s)
  {
    hide IsToken, IsLiteral, GoodBody, Kept, NulFree;
    if v.Number? {
      TokenIsLiteral(v.token);
    } else if v.String? {
      BodyMeans(v.s);
    }
  }

  lemma ArrayMeans(v: Json, depth: nat, format: bool)
    requires v.Array?
    ensures var s, e := Layout(v, depth, format), LayoutItems(v.items, depth + 1, format, []);
            && Good(s) == GoodElements(e) && (GoodElements(e) ==> Meaning(s) == Array(ElementsMeaning(e)))
            && Depth(s) == 1 + ElementsDepth(e) && NumbersFit(s) == ElementsFit(e)
    ensures Nesting(v) == 1 + NestingItems(v.items) && Printable(v) == PrintableItems(v.items) && Blank([])
  {
    hide LayoutItems, GoodElements, ElementsMeaning, ElementsDepth, ElementsFit, NestingItems, PrintableItems;
  }

  lemma ObjectMeans(v: Json, depth: nat, format: bool)
    requires v.Object?
    ensures var s := Layout(v, depth, format);
            var f := LayoutMembers(v.members, depth + 1, format, [], if format then Tabs(depth) else []);
            && Good(s) == GoodFields(f) && (GoodFields(f) ==> Meaning(s) == Object(FieldsMeaning(f)))
            && Depth(s) == 1 + FieldsDepth(f) && NumbersFit(s) == FieldsFit(f)
    ensures Nesting(v) == 1 + NestingMembers(v.members) && Printable(v) == PrintableMembers(v.members)
    ensures Blank([]) && Blank(if format then Tabs(depth) else [])
  {
    hide GoodFields, FieldsMeaning, FieldsDepth, FieldsFit, NestingMembers, PrintableMembers;
    if v.members.NoMembers? {
      NoMembersMean(depth + 1, format, if format then Tabs(depth) else []);
    } else {
      hide LayoutMembers;
    }
  }

  lemma NoMembersMean(depth: nat, format: bool, tail: seq<byte>)
    ensures LayoutMembers(NoMembers, depth, format, [], tail) == NoFields
    ensures GoodFields(NoFields) && FieldsMeaning(NoFields) == NoMembers
    ensures FieldsDepth(NoFields) == 0 && FieldsFit(NoFields)
  {
  }

  lemma TokenIsLiteral(token: seq<byte>)
    ensures IsToken(token) <==> IsLiteral(token) && |token| <= 63
  {
    hide StrtodLength;
  }

  lemma {:induction false} ItemsMean(items: Items, depth: nat, format: bool, before: seq<byte>)
    requires PrintableItems(items) && Blank(before)
    ensures var e := LayoutItems(items, depth, format, before);
            && GoodElements(e) && ElementsMeaning(e) == items
            && ElementsDepth(e) == NestingItems(items) && ElementsFit(e)
    decreases items
  {
    hide Layout, Good, Meaning, Depth, Printable, Nesting, NumbersFit;
    if items.Item? {
      LayoutMeans(items.value, depth, format);
      ItemsMean(items.next, depth, format, if format then [SPACE] else []);
    }
  }

  lemma {:induction false} MembersMean(members: Members, depth: nat, format: bool, pre: seq<byte>, tail: seq<byte>)
    requires PrintableMembers(members) && Blank(pre) && Blank(tail)
    ensures var f := LayoutMembers(members, depth, format, pre, tail);
            && GoodFields(f) && FieldsMeaning(f) == members
            && FieldsDepth(f) == NestingMembers(members) && FieldsFit(f)
    decreases members
  {
    hide Layout, Good, Meaning, Depth, Printable, Nesting, NumbersFit, BodyOf, GoodBody, Kept, NulFree;
    if members.Member? {
      BodyMeans(members.key);
      LayoutMeans(members.value, depth, format);
      MembersMean(members.next, depth, format, if format then [NEWLINE] else [], tail);
    }
  }

  // ----- What is printed is the layout's text -----

  lemma {:induction false} LayoutText(v: Json, depth: nat, format: bool, rest: seq<byte>)
    ensures Written(Layout(v, depth, format), rest) == Text(v, depth, format) + rest
    decreases v
  {
    hide BodyOf, Escape, BodyText, WrittenElements, WrittenFields, ItemsText, MembersText;
    match v
    case String(s) => LiteralText(s, rest);
    case Array(items) =>
      ItemsLaidOut(items, depth + 1, format, [], [CLOSE_ARRAY] + rest);
      assert [] + (ItemsText(items, depth + 1, format) + ([CLOSE_ARRAY] + rest))
          == ItemsText(items, depth + 1, format) + [CLOSE_ARRAY] + rest;
    case Object(members) =>
      ObjectLaidOut(members, depth, format, rest);
    case _ =>
  }

  lemma LiteralText(s: seq<byte>, rest: seq<byte>)
    ensures Literal(BodyOf(s), rest) == StringText(s) + rest
  {
    hide PiecesOf, Escape, PiecesText;
    StringLaidOut(s);
  }

  lemma {:induction false} ItemsLaidOut(items: Items, depth: nat, format: bool, before: seq<byte>, rest: seq<byte>)
    ensures WrittenElements(LayoutItems(items, depth, format, before), rest)
         == (if items.Item? then before else []) + (ItemsText(items, depth, format) + rest)
    decreases items
  {
    hide Layout, Text, Written;
    if items.Item? {
      var gap := if format then [SPACE] else [];
      var after := AfterElement(LayoutItems(items.next, depth, format, gap), rest);
      ItemsLaidOut(items.next, depth, format, gap, rest);
      LayoutText(items.value, depth, format, [] + after);
      assert [] + after == after;
    }
  }

  lemma {:induction false} ObjectLaidOut(members: Members, depth: nat, format: bool, rest: seq<byte>)
    ensures Written(Layout(Object(members), depth, format), rest) == Text(Object(members), depth, format) + rest
    decreases members, 2
  {
    hide WrittenFields, LayoutMembers, MembersText, Text;
    var nl, tail := if format then [NEWLINE] else [], if format then Tabs(depth) else [];
    var close := [CLOSE_OBJECT] + rest;
    ObjectTextIs(members, depth, format, rest);
    if members.Member? {
      MembersLaidOut(members, depth + 1, format, [], tail, close);
      assert [] + (MembersText(members, depth + 1, format) + (tail + close))
          == MembersText(members, depth + 1, format) + (tail + close);
    } else {
      NoMembersText(depth + 1, format);
      NothingWritten(close);
      assert nl + tail + close == nl + ([] + (tail + close));
    }
  }

  lemma ObjectTextIs(members: Members, depth: nat, format: bool, rest: seq<byte>)
    ensures var nl, tail := if format then [NEWLINE] else [], if format then Tabs(depth) else [];
            Text(Object(members), depth, format) + rest
              == [OPEN_OBJECT] + (nl + (MembersText(members, depth + 1, format) + (tail + ([CLOSE_OBJECT] + rest))))
  {
    hide MembersText, Tabs;
    Regroup([OPEN_OBJECT], if format then [NEWLINE] else [], MembersText(members, depth + 1, format),
            if format then Tabs(depth) else [], [CLOSE_OBJECT] + rest);
    assert Text(Object(members), depth, format) + rest
        == [OPEN_OBJECT] + (if format then [NEWLINE] else []) + MembersText(members, depth + 1, format)
           + (if format then Tabs(depth) else []) + ([CLOSE_OBJECT] + rest);
  }

  lemma Regroup(a: seq<byte>, b: seq<byte>, c: seq<byte>, d: seq<byte>, e: seq<byte>)
    ensures a + b + c + d + e == a + (b + (c + (d + e)))
  {
    assert a + b + c + d + e == a + b + c + (d + e);
    assert a + b + c + (d + e) == a + b + (c + (d + e));
  }

  lemma NothingWritten(rest: seq<byte>)
    ensures WrittenFields(NoFields, rest) == rest
  {
  }

  lemma {:induction false} MembersLaidOut(
      members: Members, depth: nat, format: bool, pre: seq<byte>, tail: seq<byte>, rest: seq<byte>)
    requires members.Member?
    ensures WrittenFields(LayoutMembers(members, depth, format, pre, tail), rest)
         == pre + (MembersText(members, depth, format) + (tail + rest))
    decreases members, 1
  {
    hide *;
    var tabs, tab := if format then Tabs(depth) else [], if format then [TAB] else [];
    var nl, comma := if format then [NEWLINE] else [], if members.next.Member? then [COMMA] else [];
    var after := comma + (nl + (MembersText(members.next, depth, format) + (tail + rest)));
    var colon := [COLON] + (tab + (Text(members.value, depth, format) + after));
    AfterLaidOut(members, depth, format, pre, tail, rest);
    FirstField(members, depth, format, pre, tail);
    LayoutText(members.value, depth, format, after);
    FieldText(LayoutMembers(members, depth, format, pre, tail), rest);
    assert [] + colon == colon;
    LiteralText(members.key, colon);
    MembersTextIs(members, depth, format, tail + rest);
    assert pre + tabs + (StringText(members.key) + colon) == pre + (tabs + (StringText(members.key) + colon));
  }

  lemma FirstField(members: Members, depth: nat, format: bool, pre: seq<byte>, tail: seq<byte>)
    requires members.Member?
    ensures var f := LayoutMembers(members, depth, format, pre, tail);
            && f.Field? && f.before == pre + (if format then Tabs(depth) else []) && f.key == BodyOf(members.key)
            && f.between == [] && f.lead == (if format then [TAB] else [])
            && f.value == Layout(members.value, depth, format)
  {
    hide Layout, PiecesOf, Tabs;
  }

  /** What stands behind a member's value, in the layout and in the printed text. */
  lemma AfterLaidOut(members: Members, depth: nat, format: bool, pre: seq<byte>, tail: seq<byte>, rest: seq<byte>)
    requires members.Member?
    ensures var nl := if format then [NEWLINE] else [];
            var f := LayoutMembers(members, depth, format, pre, tail);
            var more := MembersText(members.next, depth, format) + (tail + rest);
            f.after + AfterField(f.next, rest) == (if members.next.Member? then [COMMA] else []) + (nl + more)
    decreases members, 0
  {
    hide Layout, Written, Literal, WrittenFields, MembersText, PiecesOf;
    var nl := if format then [NEWLINE] else [];
    if members.next.Member? {
      MembersLaidOut(members.next, depth, format, nl, tail, rest);
    } else {
      NoMembersText(depth, format);
      assert nl + tail + rest == [] + (nl + ([] + (tail + rest)));
    }
  }

  lemma FieldText(f: Fields, rest: seq<byte>)
    requires f.Field?
    ensures WrittenFields(f, rest)
         == f.before + Literal(f.key,
             f.between + ([COLON] + (f.lead + Written(f.value, f.after + AfterField(f.next, rest)))))
  {
    hide Written, Literal, AfterField;
  }

  lemma MembersTextIs(members: Members, depth: nat, format: bool, more: seq<byte>)
    requires members.Member?
    ensures var tabs, tab := if format then Tabs(depth) else [], if format then [TAB] else [];
            var nl, comma := if format then [NEWLINE] else [], if members.next.Member? then [COMMA] else [];
            var after := comma + (nl + (MembersText(members.next, depth, format) + more));
            MembersText(members, depth, format) + more
              == tabs + (StringText(members.key) + ([COLON] + (tab + (Text(members.value, depth, format) + after))))
  {
    hide StringText, Text, Tabs;
    var tabs, tab := if format then Tabs(depth) else [], if format then [TAB] else [];
    var nl, comma := if format then [NEWLINE] else [], if members.next.Member? then [COMMA] else [];
    var key, v, next := StringText(members.key), Text(members.value, depth, format),
        MembersText(members.next, depth, format);
    Regroup(tabs + key + [COLON] + tab + v, comma, nl, next, more);
    Regroup(tabs, key, [COLON], tab, v + (comma + (nl + (next + more))));
    assert tabs + key + [COLON] + tab + (v + (comma + (nl + (next + more))))
        == tabs + key + [COLON] + tab + v + (comma + (nl + (next + more)));
  }

  // ----- The round trip -----

  /** A printed value inside any text: it is read and what is behind it left, unless it is nested too deep. */
  lemma ValueParses(v: Json, depth: nat, format: bool, rest: seq<byte>, d: nat)
    requires Printable(v) && d <= NESTING_LIMIT && Delimited(rest)
    ensures ParseValue(Text(v, depth, format) + rest, d) == Outcome(d + Nesting(v) <= NESTING_LIMIT, v, rest)
  {
    hide *;
    LayoutMeans(v, depth, format);
    LayoutText(v, depth, format, rest);
    LayoutNumber(v, depth, format);
    if v.Number? {
      NumberParses(v.token, rest);
      TakenIs(v.token, rest);
    }
    ValueReads(Layout(v, depth, format), rest, d);
  }

  lemma LayoutNumber(v: Json, depth: nat, format: bool)
    requires Printable(v)
    ensures var s := Layout(v, depth, format);
            s.Numeral? == v.Number? && (v.Number? ==> s.token == v.token && IsLiteral(v.token) && |v.token| <= 63)
  {
    hide StrtodLength;
  }

  lemma TakenIs(token: seq<byte>, rest: seq<byte>)
    ensures Taken(token, rest) <==> ParseNumber(token + rest) == Some(Parsed(Number(token), rest))
  {
  }

  /**
   * Printing and parsing are inverse on trees of NUL-free strings and printable numbers: printed formatted or
   * not, such a tree parses back to itself, keys and member order included, exactly when it is nested at most
   * a thousand deep; a deeper one is refused.
   */
  lemma PrintedTextParses(v: Json, format: bool)
    requires Printable(v)
    ensures Parse(Text(v, 0, format)) == if Nesting(v) <= 1000 then Some(v) else None
  {
    hide *;
    LayoutMeans(v, 0, format);
    LayoutText(v, 0, format, []);
    LayoutNumber(v, 0, format);
    BlankNothing();
    DocumentReads(false, [], Layout(v, 0, format), []);
    DocumentIs(Layout(v, 0, format));
    assert Text(v, 0, format) + [] == Text(v, 0, format);
  }

  lemma DocumentIs(s: Syntax)
    ensures Document(false, [], s, []) == Written(s, [])
  {
    hide Written;
    assert [] + ([] + Written(s, [])) == Written(s, []);
  }

  lemma BlankNothing()
    ensures Blank([]) && Delimited([])
  {
  }
}
