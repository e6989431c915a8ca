/** parse_string as the source runs it: two passes over the literal, writing into a buffer sized by the first. */
module JsonStrings {
  import opened Bytes
  import opened JsonText
  import opened JsonParse

  // ----- What the first pass counts -----

  /** The first pass, started at s, sees an escape begin at i: a backslash that is not itself escaped. */
  predicate EscapeAt(c: seq<byte>, s: nat, i: nat)
    requires s <= i < |c|
    decreases i
  {
    c[i] == BACKSLASH && (i == s || !EscapeAt(c, s, i - 1))
  }

  function Escapes(c: seq<byte>, s: nat, p: nat): (n: nat)
    requires s <= p <= |c|
    ensures n <= p - s
    decreases p
  {
    if p == s then 0 else Escapes(c, s, p - 1) + (if EscapeAt(c, s, p - 1) then 1 else 0)
  }

  /** Escapes are never adjacent: at most every other byte starts one. */
  lemma {:induction false} EscapesSparse(c: seq<byte>, s: nat, p: nat, k: nat)
    requires s <= p && p + 2 * k <= |c|
    ensures Escapes(c, s, p) <= Escapes(c, s, p + 2 * k) <= Escapes(c, s, p) + k
  {
    if k > 0 {
      var q := p + 2 * k - 2;
      EscapesSparse(c, s, p, k - 1);
      assert Escapes(c, s, q + 2) == Escapes(c, s, q + 1) + (if EscapeAt(c, s, q + 1) then 1 else 0);
      assert Escapes(c, s, q + 1) == Escapes(c, s, q) + (if EscapeAt(c, s, q) then 1 else 0);
    }
  }

  lemma {:induction false} RoomGrows(c: seq<byte>, s: nat, p: nat, q: nat)
    requires s <= p <= q <= |c|
    ensures p - Escapes(c, s, p) <= q - Escapes(c, s, q)
    decreases q
  {
    if p < q {
      RoomGrows(c, s, p, q - 1);
    }
  }

  // ----- UTF-8 from its six-bit groups -----

  function Continuation(codepoint: nat, n: nat): (s: seq<byte>)
    ensures |s| == n
  {
    if n == 0 then [] else Continuation(codepoint / 0x40, n - 1) + [0x80 + codepoint % 0x40]
  }

  function Lead(codepoint: nat, n: nat): nat {
    if n == 0 then codepoint else Lead(codepoint / 0x40, n - 1)
  }

  function Utf8Length(codepoint: nat): nat {
    if codepoint < 0x80 then 1 else if codepoint < 0x800 then 2 else if codepoint < 0x1_0000 then 3 else 4
  }

  function FirstByteMark(length: nat): byte {
    if length == 2 then 0xc0 else if length == 3 then 0xe0 else if length == 4 then 0xf0 else 0
  }

  lemma Utf8ByGroups(codepoint: nat)
    requires codepoint < 0x11_0000
    ensures var n := Utf8Length(codepoint);
            && |Utf8(codepoint)| == n && Utf8(codepoint)[1..] == Continuation(codepoint, n - 1)
            && Utf8(codepoint)[0] == FirstByteMark(n) + Lead(codepoint, n - 1)
  {
    GroupStep(codepoint);
    GroupStep(codepoint / 0x40);
    GroupStep(codepoint / 0x1000);
    GroupStep(codepoint / 0x4_0000);
    assert codepoint / 0x40 / 0x40 == codepoint / 0x1000;
    assert codepoint / 0x1000 / 0x40 == codepoint / 0x4_0000;
    hide Continuation, Lead;
    assert [] + [0x80 + codepoint % 0x40] == [0x80 + codepoint % 0x40];
    assert [] + [0x80 + codepoint / 0x40 % 0x40] == [0x80 + codepoint / 0x40 % 0x40];
    assert [] + [0x80 + codepoint / 0x1000 % 0x40] == [0x80 + codepoint / 0x1000 % 0x40];
  }

  lemma GroupStep(codepoint: nat)
    ensures Continuation(codepoint, 0) == [] && Lead(codepoint, 0) == codepoint
    ensures forall n: nat :: n > 0 ==>
        Continuation(codepoint, n) == Continuation(codepoint / 0x40, n - 1) + [0x80 + codepoint % 0x40]
    ensures forall n: nat :: n > 0 ==> Lead(codepoint, n) == Lead(codepoint / 0x40, n - 1)
  {
  }

  /** The encoding loop: from the last byte back to the first. */
  method StoreUtf8(codepoint: nat, output: array<byte>, at: nat)
    requires codepoint < 0x11_0000 && at + |Utf8(codepoint)| <= output.Length
    modifies output
    ensures output[..at] == old(output[..at])
    ensures output[at..at + |Utf8(codepoint)|] == Utf8(codepoint)
  {
    var length, rest := Utf8Length(codepoint), codepoint;
    Utf8ByGroups(codepoint);
    var position := length - 1;
    while position > 0
      invariant 0 <= position < length
      invariant output[..at] == old(output[..at])
      invariant Continuation(codepoint, length - 1) ==
          Continuation(rest, position) + output[at + position + 1..at + length]
      invariant Lead(codepoint, length - 1) == Lead(rest, position)
    {
      output[at + position] := 0x80 + rest % 0x40;
      rest := rest / 0x40;
      position := position - 1;
      assert output[at + position + 1..at + length] ==
          [output[at + position + 1]] + output[at + position + 2..at + length];
    }
    output[at] := FirstByteMark(length) + rest;
    assert output[at..at + length] == [output[at]] + output[at + 1..at + length];
  }

  // ----- The two passes -----

  lemma QuoteFrom(c: seq<byte>, p: nat)
    requires p < |c|
    ensures ClosingQuote(c[p..]) ==
      if c[p] == QUOTE then Some(0)
      else
        var step := if c[p] == BACKSLASH then 2 else 1;
        if p + step > |c| then None
        else
          var n := ClosingQuote(c[p + step..]);
          if n.Some? then Some(n.value + step) else None
  {
    assert c[p..][1..] == c[p + 1..];
    if c[p] == BACKSLASH && p + 1 < |c| {
      assert c[p..][2..] == c[p + 2..];
    }
  }

  lemma EscapeCounted(c: seq<byte>, s: nat, p: nat)
    requires s <= p < |c| && (p == s || !EscapeAt(c, s, p - 1))
    ensures c[p] != BACKSLASH ==> Escapes(c, s, p + 1) == Escapes(c, s, p) && !EscapeAt(c, s, p)
    ensures c[p] == BACKSLASH && p + 1 < |c| ==> Escapes(c, s, p + 2) == Escapes(c, s, p) + 1 && !EscapeAt(c, s, p + 1)
  {
    if c[p] == BACKSLASH && p + 1 < |c| {
      assert EscapeAt(c, s, p) && !EscapeAt(c, s, p + 1);
      assert Escapes(c, s, p + 2) == Escapes(c, s, p + 1) == Escapes(c, s, p) + 1;
    }
  }

  /** The first pass from s: the closing quote, and how many escapes were passed. */
  method FindClosingQuote(c: seq<byte>, s: nat) returns (ok: bool, end: nat, skipped: nat)
    requires s <= |c|
    ensures ok == ClosingQuote(c[s..]).Some?
    ensures ok ==> s <= end < |c| && c[end] == QUOTE && end == s + ClosingQuote(c[s..]).value
    ensures ok ==> skipped == Escapes(c, s, end)
  {
    hide ClosingQuote, Escapes, EscapeAt;
    end, skipped := s, 0;
    assert Escapes(c, s, s) == 0 by { NoEscapes(c, s); }
    ghost var whole := ClosingQuote(c[s..]);
    while end < |c| && c[end] != QUOTE
      invariant s <= end <= |c| && skipped == Escapes(c, s, end) && (end == s || !EscapeAt(c, s, end - 1))
      invariant var here := ClosingQuote(c[end..]);
                here.Some? == whole.Some? && (whole.Some? ==> end + here.value == s + whole.value)
      decreases |c| - end
    {
      QuoteFrom(c, end);
      EscapeCounted(c, s, end);
      if c[end] == BACKSLASH {
        if end + 1 >= |c| {
          return false, end, skipped;
        }
        skipped := skipped + 1;
        end := end + 1;
      }
      end := end + 1;
    }
    ok := end < |c|;
    if ok {
      QuoteFrom(c, end);
    } else {
      assert c[end..] == [];
      NoQuote();
    }
  }

  lemma NoEscapes(c: seq<byte>, s: nat)
    requires s <= |c|
    ensures Escapes(c, s, s) == 0
  {
  }

  lemma NoQuote()
    ensures ClosingQuote([]) == None
  {
  }

  /** utf16_literal_to_utf8: a zero length means failure; otherwise its bytes are stored. */
  method Utf16LiteralToUtf8(c: seq<byte>, p: nat, end: nat, output: array<byte>, at: nat)
      returns (length: nat, written: nat)
    requires p <= end <= |c| && at <= output.Length
    requires var u := Utf16Literal(c[p..], end - p); u.Some? ==> at + |u.value.bytes| <= output.Length
    modifies output
    ensures output[..at] == old(output[..at])
    ensures var u := Utf16Literal(c[p..], end - p);
            if u.None? then length == 0
            else length == u.value.length && written == at + |u.value.bytes| && output[at..written] == u.value.bytes
  {
    hide Utf8;
    written := at;
    if end - p < 6 {
      return 0, at;
    }
    assert c[p..][2..6] == c[p + 2..p + 6];
    var first := Hex4(c[p + 2..p + 6]);
    if 0xdc00 <= first <= 0xdfff {
      return 0, at;
    }
    var codepoint := first;
    length := 6;
    if 0xd800 <= first <= 0xdbff {
      if end - p < 12 || c[p + 6] != BACKSLASH || c[p + 7] != 0x75 {
        return 0, at;
      }
      assert c[p..][8..12] == c[p + 8..p + 12];
      var second := Hex4(c[p + 8..p + 12]);
      if second < 0xdc00 || second > 0xdfff {
        return 0, at;
      }
      length := 12;
      codepoint := 0x1_0000 + 0x400 * (first % 0x400) + second % 0x400;
    }
    StoreUtf8(codepoint, output, at);
    written := at + |Utf8(codepoint)|;
  }

  /** What is left to decode after one step, and that the step keeps within the room the first pass left. */
  lemma DecodeStep(c: seq<byte>, s: nat, p: nat, end: nat)
    requires s <= p < end < |c|
    ensures c[p] != BACKSLASH ==>
      && Decode(c[p..], end - p) == Prepend([c[p]], Decode(c[p + 1..], end - p - 1))
      && p - Escapes(c, s, p) + 1 <= p + 1 - Escapes(c, s, p + 1)
    ensures c[p] == BACKSLASH && c[p + 1] != 0x75 && SimpleEscape(c[p + 1]).Some? ==>
      && Decode(c[p..], end - p) == Prepend([SimpleEscape(c[p + 1]).value], Decode(c[p + 2..], end - p - 2))
      && p - Escapes(c, s, p) + 1 <= p + 2 - Escapes(c, s, p + 2)
    ensures c[p] == BACKSLASH && c[p + 1] != 0x75 && SimpleEscape(c[p + 1]).None? ==> Decode(c[p..], end - p) == None
    ensures c[p] == BACKSLASH && c[p + 1] == 0x75 ==>
      var u := Utf16Literal(c[p..], end - p);
      && (u.None? ==> Decode(c[p..], end - p) == None)
      && (u.Some? ==>
          && p + u.value.length <= end
          && Decode(c[p..], end - p) ==
              Prepend(u.value.bytes, Decode(c[p + u.value.length..], end - p - u.value.length))
          && p - Escapes(c, s, p) + |u.value.bytes| <= p + u.value.length - Escapes(c, s, p + u.value.length))
  {
    hide SimpleEscape, Utf16Literal, EscapeAt;
    var t := c[p..];
    assert t[0] == c[p] && t[1] == c[p + 1] && t[1..] == c[p + 1..] && t[2..] == c[p + 2..];
    if c[p] != BACKSLASH {
      assert !EscapeAt(c, s, p) by { NotEscape(c, s, p); }
    } else if c[p + 1] == 0x75 {
      var u := Utf16Literal(t, end - p);
      if u.Some? {
        assert t[u.value.length..] == c[p + u.value.length..];
        EscapesSparse(c, s, p, u.value.length / 2);
      }
    } else {
      EscapesSparse(c, s, p, 1);
    }
  }

  lemma NotEscape(c: seq<byte>, s: nat, p: nat)
    requires s <= p < |c| && c[p] != BACKSLASH
    ensures !EscapeAt(c, s, p)
  {
  }

  /** The most that can have been written by the time the second pass is at p fits, with its terminator. */
  lemma RoomSuffices(c: seq<byte>, s: nat, p: nat, end: nat)
    requires s <= p <= end + 1 && end < |c| && c[end] == QUOTE
    requires s <= end
    ensures p - s - Escapes(c, s, p) <= end + 1 - s - Escapes(c, s, end)
  {
    NotEscape(c, s, end);
    assert Escapes(c, s, end + 1) == Escapes(c, s, end);
    RoomGrows(c, s, p, end + 1);
  }

  lemma PrependTwice(a: seq<byte>, b: seq<byte>, r: Option<seq<byte>>)
    ensures Prepend(a, Prepend(b, r)) == Prepend(a + b, r) && Prepend([], r) == r
  {
    if r.Some? {
      assert a + (b + r.value) == (a + b) + r.value && [] + r.value == r.value;
    }
  }

  lemma NothingLeft(t: seq<byte>, n: int)
    requires n <= 0 && n < |t|
    ensures Decode(t, n) == Some([])
  {
  }

  /**
   * The second pass. The buffer is exactly as large as the first pass computed, and every store, the
   * terminating zero included, is within it, whatever the literal contains.
   */
  method DecodeLiteral(c: seq<byte>, s: nat, end: nat, skipped: nat)
      returns (ok: bool, output: array<byte>, written: nat)
    requires s <= end < |c| && c[end] == QUOTE && skipped == Escapes(c, s, end)
    ensures fresh(output) && output.Length == (end - s + 1) - skipped + 1
    ensures ok == Decode(c[s..], end - s).Some?
    ensures ok ==> written < output.Length && output[..written] == Decode(c[s..], end - s).value && output[written] == 0
  {
    hide *;
    output := new byte[(end - s + 1) - skipped + 1];
    var p := s;
    written := 0;
    NoEscapes(c, s);
    ghost var whole := Decode(c[s..], end - s);
    PrependTwice([], [], whole);
    assert output[..0] == [];
    while p < end
      invariant s <= p <= end + 1 && written <= p - s - Escapes(c, s, p)
      invariant written < output.Length
      invariant whole == Prepend(output[..written], Decode(c[p..], end - p))
      decreases end + 1 - p
    {
      DecodeStep(c, s, p, end);
      ghost var done, more: seq<byte> := output[..written], [];
      if c[p] != BACKSLASH {
        RoomSuffices(c, s, p + 1, end);
        more := [c[p]];
        output[written] := c[p];
        written, p := written + 1, p + 1;
        assert output[..written] == done + more;
      } else if c[p + 1] == 0x75 {
        ghost var u := Utf16Literal(c[p..], end - p);
        if u.Some? {
          RoomSuffices(c, s, p + u.value.length, end);
          more := u.value.bytes;
        }
        var length, next := Utf16LiteralToUtf8(c, p, end, output, written);
        if length == 0 {
          NoPrepend(done);
          return false, output, written;
        }
        written, p := next, p + length;
        assert output[..written] == done + more;
      } else {
        var e := SimpleEscape(c[p + 1]);
        if e.None? {
          NoPrepend(done);
          return false, output, written;
        }
        RoomSuffices(c, s, p + 2, end);
        more := [e.value];
        output[written] := e.value;
        written, p := written + 1, p + 2;
        assert output[..written] == done + more;
      }
      PrependTwice(done, more, Decode(c[p..], end - p));
    }
    NothingLeft(c[p..], end - p);
    WholePrepended(output[..written]);
    output[written] := 0;
    ok := true;
  }

  lemma NoPrepend(s: seq<byte>)
    ensures Prepend(s, None) == None
  {
  }

  lemma WholePrepended(s: seq<byte>)
    ensures Prepend(s, Some([])) == Some(s)
  {
    assert s + [] == s;
  }
}
