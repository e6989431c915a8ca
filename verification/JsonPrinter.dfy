/** The printer over a growing buffer, as the source runs it. */
module JsonPrinter {
  import opened Bytes
  import opened JsonText

  const INT_MAX := 0x7fff_ffff

  lemma {:induction false} EscapeAppend(a: seq<byte>, b: seq<byte>)
    ensures Escape(a + b) == Escape(a) + Escape(b)
  {
    if a == [] {
      assert a + b == b;
    } else {
      assert (a + b)[1..] == a[1..] + b;
      EscapeAppend(a[1..], b);
    }
  }

  lemma EscapeNext(s: seq<byte>, i: nat)
    requires i < |s|
    ensures Escape(s[..i + 1]) == Escape(s[..i]) + EscapeByte(s[i])
  {
    hide EscapeByte;
    EscapeAppend(s[..i], [s[i]]);
    assert s[..i + 1] == s[..i] + [s[i]];
    assert [s[i]][1..] == [] && Escape([]) == [] && Escape([s[i]]) == EscapeByte(s[i]) + [];
  }

  lemma {:induction false} EscapeNulFree(s: seq<byte>)
    ensures NulFree(Escape(s))
  {
    if s != [] {
      EscapeNulFree(s[1..]);
    }
  }

  lemma {:induction false} TextNulFree(v: Json, depth: nat, format: bool)
    requires Printable(v)
    ensures NulFree(Text(v, depth, format))
    decreases v
  {
    hide IsToken, EscapeByte;
    match v
    case Number(token) => TokenNulFree(token);
    case String(s) => EscapeNulFree(s);
    case Array(items) => ItemsNulFree(items, depth + 1, format);
    case Object(members) => MembersNulFree(members, depth + 1, format);
    case _ =>
  }

  lemma TokenNulFree(token: seq<byte>)
    requires IsToken(token)
    ensures NulFree(token) && token != []
  {
  }

  lemma {:induction false} ItemsNulFree(items: Items, depth: nat, format: bool)
    requires PrintableItems(items)
    ensures NulFree(ItemsText(items, depth, format))
    decreases items
  {
    if items.Item? {
      TextNulFree(items.value, depth, format);
      ItemsNulFree(items.next, depth, format);
    }
  }

  lemma {:induction false} MembersNulFree(members: Members, depth: nat, format: bool)
    requires PrintableMembers(members)
    ensures NulFree(MembersText(members, depth, format))
    decreases members
  {
    hide EscapeByte, Escape, Text;
    if members.Member? {
      EscapeNulFree(members.key);
      TextNulFree(members.value, depth, format);
      MembersNulFree(members.next, depth, format);
    }
  }

  lemma EscapeEmpty()
    ensures Escape([]) == []
  {
  }

  lemma {:induction false} NothingEscaped(s: seq<byte>)
    requires |Escape(s)| == |s|
    ensures Escape(s) == s
  {
    if s != [] {
      NothingEscaped(s[1..]);
    }
  }

  lemma EscapePrefix(s: seq<byte>, i: nat)
    requires i <= |s|
    ensures |Escape(s[..i])| <= |Escape(s)|
  {
    hide *;
    EscapeAppend(s[..i], s[i..]);
    assert s[..i] + s[i..] == s;
  }

  lemma ArrayText(items: Items, depth: nat, format: bool)
    ensures Text(Array(items), depth, format) == [OPEN_ARRAY] + ItemsText(items, depth + 1, format) + [CLOSE_ARRAY]
  {
    hide ItemsText;
  }

  lemma NoItemsText(depth: nat, format: bool)
    ensures ItemsText(NoItems, depth, format) == []
  {
  }

  /** What one round of the loop of print_array adds. */
  ghost function ElementText(items: Items, depth: nat, format: bool): seq<byte>
    requires items.Item?
  {
    Text(items.value, depth, format) + (if items.next.Item? then [COMMA] + (if format then [SPACE] else []) else [])
  }

  ghost function NameText(key: seq<byte>, depth: nat, format: bool): seq<byte> {
    (if format then Tabs(depth) else []) + StringText(key) + ([COLON] + (if format then [TAB] else []))
  }

  /** What one round of the loop of print_object adds. */
  ghost function EntryText(members: Members, depth: nat, format: bool): seq<byte>
    requires members.Member?
  {
    NameText(members.key, depth, format) + Text(members.value, depth, format)
    + ((if members.next.Member? then [COMMA] else []) + (if format then [NEWLINE] else []))
  }

  lemma EntryTextIs(members: Members, depth: nat, format: bool)
    requires members.Member?
    ensures EntryText(members, depth, format) ==
      NameText(members.key, depth, format) + Text(members.value, depth, format)
      + ((if members.next.Member? then [COMMA] else []) + (if format then [NEWLINE] else []))
  {
    hide NameText, Text;
  }

  lemma ItemsTextIs(items: Items, depth: nat, format: bool)
    requires items.Item?
    ensures ItemsText(items, depth, format) == ElementText(items, depth, format) + ItemsText(items.next, depth, format)
  {
    hide Text;
  }

  lemma MembersTextIs(members: Members, depth: nat, format: bool)
    requires members.Member?
    ensures MembersText(members, depth, format) ==
        EntryText(members, depth, format) + MembersText(members.next, depth, format)
  {
    hide Text, StringText, Tabs;
  }

  function ObjectStart(format: bool): seq<byte> {
    [OPEN_OBJECT] + (if format then [NEWLINE] else [])
  }

  function ObjectEnd(depth: nat, format: bool): seq<byte> {
    (if format then Tabs(depth) else []) + [CLOSE_OBJECT]
  }

  lemma ObjectText(members: Members, depth: nat, format: bool)
    ensures Text(Object(members), depth, format) ==
      ObjectStart(format) + MembersText(members, depth + 1, format) + ObjectEnd(depth, format)
  {
    hide MembersText, Tabs;
  }

  lemma NextPrintable(items: Items)
    requires items.Item?
    ensures PrintableItems(items) ==> PrintableItems(items.next) && Printable(items.value)
  {
  }

  lemma NextMemberPrintable(members: Members)
    requires members.Member?
    ensures PrintableMembers(members) ==> (
      PrintableMembers(members.next) && Printable(members.value) && NulFree(members.key))
  {
  }

  class PrintBuffer {
    var buffer: array<byte>
    var offset: nat
    var depth: nat
    const noalloc: bool
    const format: bool

    constructor (buffer: array<byte>, noalloc: bool, format: bool)
      requires buffer.Length <= INT_MAX
      ensures Valid() && offset == 0 && depth == 0
      ensures this.buffer == buffer && this.noalloc == noalloc && this.format == format
    {
      this.buffer, this.noalloc, this.format := buffer, noalloc, format;
      offset, depth := 0, 0;
    }

    ghost predicate Valid()
      reads this`buffer, this`offset
      ensures Valid() ==> offset <= buffer.Length
    {
      buffer.Length <= INT_MAX && (offset < buffer.Length || offset == buffer.Length == 0)
    }

    /** How large the buffer can become. */
    ghost function Limit(): nat
      reads this`buffer
    {
      if noalloc then buffer.Length else INT_MAX
    }

    /** ensure: room for `needed` more bytes and a terminator, growing the buffer if it may grow. */
    method Ensure(needed: nat) returns (ok: bool)
      requires Valid()
      modifies this`buffer
      ensures Valid() && Limit() == old(Limit()) && (buffer == old(buffer) || fresh(buffer))
      ensures buffer.Length >= old(buffer.Length) && buffer[..old(buffer.Length)] == old(buffer[..])
      ensures ok <==> offset + needed + 1 <= Limit()
      ensures ok ==> offset + needed + 1 <= buffer.Length
    {
      if buffer.Length > 0 && offset >= buffer.Length {
        return false;
      }
      if needed > INT_MAX {
        return false;
      }
      var total := needed + offset + 1;
      if total <= buffer.Length {
        return true;
      }
      if noalloc {
        return false;
      }
      var newSize := total * 2;
      if total > INT_MAX / 2 {
        if total > INT_MAX {
          return false;
        }
        newSize := INT_MAX;
      }
      var grown := new byte[newSize];
      forall i | 0 <= i < buffer.Length {
        grown[i] := buffer[i];
      }
      assert grown[..buffer.Length] == buffer[..];
      buffer := grown;
      return true;
    }

    /** A C string: what has been written, `text` behind it, and a terminator. */
    ghost predicate Holds(before: seq<byte>, text: seq<byte>)
      reads this`buffer, this`offset, buffer
    {
      && |before| + |text| < buffer.Length && |before| <= offset <= |before| + |text|
      && buffer[..|before| + |text|] == before + text && buffer[|before| + |text|] == 0
    }

    lemma HoldsBehind(before: seq<byte>, done: seq<byte>, text: seq<byte>)
      requires Holds(before + done, text)
      ensures Holds(before, done + text)
    {
      assert before + done + text == before + (done + text);
    }

    /** update_offset: step to the terminator. */
    method UpdateOffset(ghost before: seq<byte>, ghost text: seq<byte>)
      requires Valid() && Holds(before, text) && NulFree(text)
      modifies this`offset
      ensures Valid() && offset == |before| + |text| && buffer[..offset] == before + text && Holds(before + text, [])
    {
      ghost var end := |before| + |text|;
      assert forall i :: |before| <= i < end ==> buffer[i] == (before + text)[i];
      while buffer[offset] != 0
        invariant |before| <= offset <= end
        decreases end - offset
      {
        offset := offset + 1;
      }
      assert before + text + [] == before + text;
    }

    /** memcpy or strcpy into the buffer. */
    method Copy(text: seq<byte>, at: nat, terminated: bool)
      requires at + |text| + (if terminated then 1 else 0) <= buffer.Length
      modifies buffer
      ensures buffer[..at + |text|] == old(buffer[..at]) + text
      ensures terminated ==> buffer[at + |text|] == 0
    {
      forall i | 0 <= i < |text| {
        buffer[at + i] := text[i];
      }
      if terminated {
        buffer[at + |text|] := 0;
      }
    }

    /** Literal text and its terminator, at the offset, which stays where it is. */
    method Put(text: seq<byte>) returns (ok: bool)
      requires Valid()
      modifies this`buffer, buffer
      ensures Valid() && Limit() == old(Limit()) && (buffer == old(buffer) || fresh(buffer))
      ensures ok <==> offset + |text| + 2 <= Limit()
      ensures ok ==> Holds(old(buffer[..offset]), text)
    {
      ghost var before := buffer[..offset];
      ok := Ensure(|text| + 1);
      if ok {
        assert buffer[..offset] == before;
        Copy(text, offset, true);
      }
    }

    /** Text written at the offset, which moves past it; the source asks for `needed` bytes of room first. */
    method Append(text: seq<byte>, needed: nat, terminated: bool) returns (ok: bool)
      requires Valid() && needed >= |text| + (if terminated then 1 else 0)
      modifies this`buffer, this`offset, buffer
      ensures Valid() && Limit() == old(Limit()) && (buffer == old(buffer) || fresh(buffer))
      ensures ok <==> old(offset) + needed + 1 <= Limit()
      ensures ok ==> offset == old(offset) + |text| && buffer[..offset] == old(buffer[..offset]) + text
    {
      ghost var before := buffer[..offset];
      ok := Ensure(needed);
      if ok {
        assert buffer[..offset] == before;
        Copy(text, offset, terminated);
        offset := offset + |text|;
      }
    }

    /** The loop body of print_string_ptr: one byte of the string, written at `at`. */
    method WriteEscaped(b: byte, at: nat) returns (next: nat)
      requires at + |EscapeByte(b)| <= buffer.Length
      modifies buffer
      ensures next == at + |EscapeByte(b)| && buffer[..next] == old(buffer[..at]) + EscapeByte(b)
    {
      ghost var before := buffer[..at];
      next := at;
      if b > 31 && b != QUOTE && b != BACKSLASH {
        buffer[next] := b;
      } else {
        buffer[next] := BACKSLASH;
        next := next + 1;
        if b == BACKSLASH || b == QUOTE {
          buffer[next] := b;
        } else if b == 0x08 {
          buffer[next] := 0x62;
        } else if b == 0x0c {
          buffer[next] := 0x66;
        } else if b == 0x0a {
          buffer[next] := 0x6e;
        } else if b == 0x0d {
          buffer[next] := 0x72;
        } else if b == 0x09 {
          buffer[next] := 0x74;
        } else {
          buffer[next], buffer[next + 1], buffer[next + 2] := 0x75, 0x30, 0x30;
          buffer[next + 3], buffer[next + 4] := LowerHex(b / 16), LowerHex(b % 16);
          next := next + 4;
        }
      }
      next := next + 1;
      assert buffer[..at] == before && buffer[at..next] == EscapeByte(b);
    }

    /** The counting loop of print_string_ptr: how much longer than the string its escaped form is. */
    static method CountEscapes(s: seq<byte>) returns (escapes: nat)
      ensures |s| + escapes == |Escape(s)|
    {
      hide Escape, LowerHex;
      var i := 0;
      escapes := 0;
      EscapeEmpty();
      while i < |s|
        invariant i <= |s| && i + escapes == |Escape(s[..i])|
      {
        EscapeNext(s, i);
        if s[i] in [QUOTE, BACKSLASH, 0x08, 0x0c, 0x0a, 0x0d, 0x09] {
          escapes := escapes + 1;
        } else if s[i] < 32 {
          escapes := escapes + 5;
        }
        i := i + 1;
      }
      assert s[..i] == s;
    }

    /** The writing loop of print_string_ptr. */
    method WriteAll(s: seq<byte>, ghost before: seq<byte>)
      requires Valid() && offset + |Escape(s)| + 4 <= buffer.Length
      requires buffer[..offset + 1] == before + [QUOTE]
      modifies buffer
      ensures buffer[..offset + 1 + |Escape(s)|] == before + [QUOTE] + Escape(s)
    {
      hide Escape, EscapeByte, LowerHex;
      var k, out := 0, offset + 1;
      EscapeEmpty();
      assert before + [QUOTE] + [] == before + [QUOTE];
      while k < |s|
        invariant k <= |s| && out == offset + 1 + |Escape(s[..k])|
        invariant out <= buffer.Length && buffer[..out] == before + [QUOTE] + Escape(s[..k])
      {
        EscapeNext(s, k);
        EscapePrefix(s, k + 1);
        out := WriteEscaped(s[k], out);
        assert before + [QUOTE] + Escape(s[..k]) + EscapeByte(s[k]) == before + [QUOTE] + Escape(s[..k + 1]);
        k := k + 1;
      }
      assert s[..k] == s;
    }

    /** The writing half of print_string_ptr: a plain copy when nothing has to be escaped. */
    method WriteString(s: seq<byte>, escapes: nat)
      requires |s| + escapes == |Escape(s)| && Valid() && offset + |Escape(s)| + 4 <= buffer.Length
      modifies buffer
      ensures Holds(old(buffer[..offset]), StringText(s))
    {
      hide *;
      ghost var before := buffer[..offset];
      var length := |s| + escapes;
      buffer[offset] := QUOTE;
      assert buffer[..offset + 1] == before + [QUOTE];
      if escapes == 0 {
        NothingEscaped(s);
        Copy(s, offset + 1, false);
      } else {
        WriteAll(s, before);
      }
      assert buffer[..offset + 1 + length] == before + [QUOTE] + Escape(s);
      buffer[offset + length + 1], buffer[offset + length + 2] := QUOTE, 0;
      QuotedHolds(before, s);
    }

    lemma QuotedHolds(before: seq<byte>, s: seq<byte>)
      requires |before| == offset && offset + |Escape(s)| + 3 <= buffer.Length
      requires buffer[..offset + 1 + |Escape(s)|] == before + [QUOTE] + Escape(s)
      requires buffer[offset + 1 + |Escape(s)|] == QUOTE && buffer[offset + 2 + |Escape(s)|] == 0
      ensures Holds(before, StringText(s))
    {
      hide Escape;
      var end := offset + 1 + |Escape(s)|;
      assert buffer[..end + 1] == buffer[..end] + [QUOTE];
      assert before + [QUOTE] + Escape(s) + [QUOTE] == before + StringText(s);
    }

    /** print_string_ptr: count what has to be escaped, ask for room once, then write. */
    method PrintString(s: seq<byte>) returns (ok: bool)
      requires Valid()
      modifies this`buffer, buffer
      ensures Valid() && Limit() == old(Limit()) && (buffer == old(buffer) || fresh(buffer))
      ensures ok <==> offset + |StringText(s)| + 2 <= Limit()
      ensures ok ==> Holds(old(buffer[..offset]), StringText(s))
    {
      hide Escape, Holds;
      ghost var before := buffer[..offset];
      var escapes := CountEscapes(s);
      ok := Ensure(|s| + escapes + 3);
      if ok {
        assert buffer[..offset] == before;
        WriteString(s, escapes);
      }
    }

    /** print_value: how much room is needed is decided by the text alone. */
    method PrintItem(v: Json) returns (ok: bool)
      requires Valid() && Printable(v)
      modifies this`buffer, this`offset, this`depth, buffer
      ensures Valid() && Limit() == old(Limit()) && (buffer == old(buffer) || fresh(buffer))
      ensures ok <==> old(offset) + |Text(v, old(depth), format)| + 2 <= Limit()
      ensures ok ==> depth == old(depth) && Holds(old(buffer[..offset]), Text(v, depth, format))
      decreases v, 0
    {
      hide StringText, ItemsText, MembersText, Tabs, IsToken;
      match v
      case Null => ok := Put(NULL_TEXT);
      case False => ok := Put(FALSE_TEXT);
      case True => ok := Put(TRUE_TEXT);
      case Number(token) =>
        TokenNulFree(token);
        ok := Put(token);
        if ok {
          offset := offset + |token|;
        }
      case String(s) => ok := PrintString(s);
      case Array(items) => ok := PrintArray(items);
      case Object(members) => ok := PrintObject(members);
    }

    /** One round of the loop of print_array: an element and the separator behind it. */
    method PrintElement(current: Items) returns (ok: bool)
      requires Valid() && PrintableItems(current) && current.Item?
      modifies this`buffer, this`offset, this`depth, buffer
      ensures Valid() && Limit() == old(Limit()) && (buffer == old(buffer) || fresh(buffer))
      ensures var text := ElementText(current, old(depth), format);
              && (ok <==> old(offset) + |text| + 2 <= Limit())
              && (ok ==>
                    && depth == old(depth) && offset == old(offset) + |text|
                    && buffer[..offset] == old(buffer[..offset]) + text)
      decreases current, 0
    {
      hide Text;
      ghost var before, text := buffer[..offset], Text(current.value, depth, format);
      ok := PrintItem(current.value);
      if !ok {
        return;
      }
      TextNulFree(current.value, depth, format);
      UpdateOffset(before, text);
      if current.next.Item? {
        ok := Append([COMMA] + (if format then [SPACE] else []), if format then 3 else 2, true);
      }
    }

    /** The loop of print_array. */
    method PrintElements(items: Items) returns (ok: bool)
      requires Valid() && PrintableItems(items)
      modifies this`buffer, this`offset, this`depth, buffer
      ensures Valid() && Limit() == old(Limit()) && (buffer == old(buffer) || fresh(buffer))
      ensures var text := ItemsText(items, old(depth), format);
              && (!ok ==> old(offset) + |text| + 2 > Limit())
              && (ok ==>
                    && depth == old(depth) && offset == old(offset) + |text|
                    && buffer[..offset] == old(buffer[..offset]) + text)
      decreases items, 1
    {
      hide *;
      ghost var before, inner, done := buffer[..offset], depth, [];
      var current := items;
      ok := true;
      assert before + [] == before;
      while current.Item?
        invariant Valid() && Limit() == old(Limit()) && (buffer == old(buffer) || fresh(buffer))
        invariant ok && depth == inner && PrintableItems(current) && (current == items || (items decreases to current))
        invariant offset == |before| + |done| && buffer[..offset] == before + done
        invariant done + ItemsText(current, inner, format) == ItemsText(items, inner, format)
        decreases current
      {
        ItemsTextIs(current, inner, format);
        NextPrintable(current);
        ghost var text := ElementText(current, inner, format);
        ok := PrintElement(current);
        if !ok {
          return;
        }
        assert before + done + text == before + (done + text);
        assert done + (text + ItemsText(current.next, inner, format)) ==
            done + text + ItemsText(current.next, inner, format);
        done := done + text;
        current := current.next;
      }
      NoItemsText(inner, format);
      assert done + [] == done;
    }

    /** print_array. */
    method PrintArray(items: Items) returns (ok: bool)
      requires Valid() && PrintableItems(items)
      modifies this`buffer, this`offset, this`depth, buffer
      ensures Valid() && Limit() == old(Limit()) && (buffer == old(buffer) || fresh(buffer))
      ensures ok <==> old(offset) + |Text(Array(items), old(depth), format)| + 2 <= Limit()
      ensures ok ==> depth == old(depth) && Holds(old(buffer[..offset]), Text(Array(items), depth, format))
      decreases items, 2
    {
      hide *;
      ghost var before, text := buffer[..offset], ItemsText(items, depth + 1, format);
      ArrayText(items, depth, format);
      ok := Append([OPEN_ARRAY], 1, false);
      if !ok {
        return;
      }
      depth := depth + 1;
      ok := PrintElements(items);
      if !ok {
        return;
      }
      ok := Put([CLOSE_ARRAY]);
      if ok {
        depth := depth - 1;
        assert before + [OPEN_ARRAY] + text == before + ([OPEN_ARRAY] + text);
        HoldsBehind(before, [OPEN_ARRAY] + text, [CLOSE_ARRAY]);
      }
    }

    /** A key, with the offset moved behind it. */
    method PrintKey(key: seq<byte>) returns (ok: bool)
      requires Valid() && NulFree(key)
      modifies this`buffer, this`offset, buffer
      ensures Valid() && Limit() == old(Limit()) && (buffer == old(buffer) || fresh(buffer))
      ensures ok <==> old(offset) + |StringText(key)| + 2 <= Limit()
      ensures ok ==> offset == old(offset) + |StringText(key)|
      ensures ok ==> buffer[..offset] == old(buffer[..offset]) + StringText(key)
    {
      ghost var before := buffer[..offset];
      ok := PrintString(key);
      if ok {
        EscapeNulFree(key);
        hide Escape;
        UpdateOffset(before, StringText(key));
      }
    }

    /** Tabs, key and colon. */
    method PrintName(key: seq<byte>) returns (ok: bool)
      requires Valid() && NulFree(key)
      modifies this`buffer, this`offset, buffer
      ensures Valid() && Limit() == old(Limit()) && (buffer == old(buffer) || fresh(buffer))
      ensures !ok ==> old(offset) + |NameText(key, depth, format)| + 2 > Limit()
      ensures ok ==> offset == old(offset) + |NameText(key, depth, format)|
      ensures ok ==> buffer[..offset] == old(buffer[..offset]) + NameText(key, depth, format)
    {
      hide Valid, Limit, Holds, StringText, Tabs, NulFree;
      ghost var before := buffer[..offset];
      if format {
        ok := Append(Tabs(depth), depth, false);
        if !ok {
          return;
        }
      }
      assert buffer[..offset] == before + (if format then Tabs(depth) else []);
      ok := PrintKey(key);
      if !ok {
        return;
      }
      var colon := [COLON] + (if format then [TAB] else []);
      ok := Append(colon, |colon|, false);
    }

    /** One round of the loop of print_object: tabs, key, colon, value, comma and line end. */
    method PrintEntry(current: Members) returns (ok: bool)
      requires Valid() && PrintableMembers(current) && current.Member?
      modifies this`buffer, this`offset, this`depth, buffer
      ensures Valid() && Limit() == old(Limit()) && (buffer == old(buffer) || fresh(buffer))
      ensures var text := EntryText(current, old(depth), format);
              && (ok <==> old(offset) + |text| + 2 <= Limit())
              && (ok ==>
                    && depth == old(depth) && offset == old(offset) + |text|
                    && buffer[..offset] == old(buffer[..offset]) + text)
      decreases current, 0
    {
      hide *;
      NextMemberPrintable(current);
      EntryTextIs(current, depth, format);
      ok := PrintName(current.key);
      if !ok {
        return;
      }
      ghost var front, text := buffer[..offset], Text(current.value, depth, format);
      ok := PrintItem(current.value);
      if !ok {
        return;
      }
      TextNulFree(current.value, depth, format);
      UpdateOffset(front, text);
      var end := (if current.next.Member? then [COMMA] else []) + (if format then [NEWLINE] else []);
      ok := Append(end, |end| + 1, true);
    }

    /** The loop of print_object. */
    method PrintEntries(members: Members) returns (ok: bool)
      requires Valid() && PrintableMembers(members)
      modifies this`buffer, this`offset, this`depth, buffer
      ensures Valid() && Limit() == old(Limit()) && (buffer == old(buffer) || fresh(buffer))
      ensures var text := MembersText(members, old(depth), format);
              && (!ok ==> old(offset) + |text| + 2 > Limit())
              && (ok ==>
                    && depth == old(depth) && offset == old(offset) + |text|
                    && buffer[..offset] == old(buffer[..offset]) + text)
      decreases members, 1
    {
      hide *;
      ghost var before, inner, done := buffer[..offset], depth, [];
      var current := members;
      ok := true;
      assert before + [] == before;
      while current.Member?
        invariant Valid() && Limit() == old(Limit()) && (buffer == old(buffer) || fresh(buffer))
        invariant ok && depth == inner && PrintableMembers(current)
            && (current == members || (members decreases to current))
        invariant offset == |before| + |done| && buffer[..offset] == before + done
        invariant done + MembersText(current, inner, format) == MembersText(members, inner, format)
        decreases current
      {
        MembersTextIs(current, inner, format);
        NextMemberPrintable(current);
        ghost var text := EntryText(current, inner, format);
        ok := PrintEntry(current);
        if !ok {
          return;
        }
        assert before + done + text == before + (done + text);
        assert done + (text + MembersText(current.next, inner, format)) ==
            done + text + MembersText(current.next, inner, format);
        done := done + text;
        current := current.next;
      }
      NoMembersText(inner, format);
      assert done + [] == done;
    }

    /** print_object. */
    method PrintObject(members: Members) returns (ok: bool)
      requires Valid() && PrintableMembers(members)
      modifies this`buffer, this`offset, this`depth, buffer
      ensures Valid() && Limit() == old(Limit()) && (buffer == old(buffer) || fresh(buffer))
      ensures ok <==> old(offset) + |Text(Object(members), old(depth), format)| + 2 <= Limit()
      ensures ok ==> depth == old(depth) && Holds(old(buffer[..offset]), Text(Object(members), depth, format))
      decreases members, 2
    {
      hide *;
      ghost var before, text := buffer[..offset], MembersText(members, depth + 1, format);
      ObjectText(members, depth, format);
      var open := ObjectStart(format);
      ok := Append(open, |open| + 1, false);
      if !ok {
        return;
      }
      depth := depth + 1;
      ok := PrintEntries(members);
      if !ok {
        return;
      }
      var close := ObjectEnd(depth - 1, format);
      ok := Put(close);
      if ok {
        depth := depth - 1;
        assert before + open + text == before + (open + text);
        HoldsBehind(before, open + text, close);
      }
    }
  }

  /**
   * cJSON_Print and cJSON_PrintUnformatted: a 256-byte buffer, printed into, and a copy cut to size. Printing
   * fails exactly when the text, its terminator and one spare byte do not fit in INT_MAX bytes.
   */
  method Print(v: Json, format: bool) returns (printed: Option<array<byte>>)
    requires Printable(v)
    ensures printed.Some? <==> |Text(v, 0, format)| + 2 <= 0x7fff_ffff
    ensures printed.Some? ==> fresh(printed.value) && printed.value[..] == Text(v, 0, format) + [0]
  {
    hide Text;
    var initial := new byte[256];
    var p := new PrintBuffer(initial, false, format);
    var ok := p.PrintItem(v);
    if !ok {
      return None;
    }
    TextNulFree(v, 0, format);
    ghost var text := Text(v, 0, format);
    p.UpdateOffset([], text);
    var result := new byte[p.offset + 1];
    forall i | 0 <= i < p.offset + 1 {
      result[i] := p.buffer[i];
    }
    assert result[..p.offset] == p.buffer[..p.offset];
    assert result[..] == result[..p.offset] + [0];
    return Some(result);
  }
}
