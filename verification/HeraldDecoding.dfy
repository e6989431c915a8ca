/** What decode_name's result means: section 4.1.4 of RFC 1035, and the inverse of encode_name. */
module HeraldDecoding {
  import opened Bytes
  import opened HeraldNames

  /** At `pos` a name with these labels begins, reached over `hops` labels and compression pointers. */
  ghost predicate NameAt(buf: seq<byte>, pos: nat, labels: seq<seq<byte>>, hops: nat)
    decreases hops
  {
    && pos < |buf|
    && var c := buf[pos];
       if c == 0 then labels == [] && hops == 0
       else if hops == 0 then false
       else if c >= 192 then pos + 1 < |buf| && NameAt(buf, Offset(c, buf[pos + 1]), labels, hops - 1)
       else
         && c < 64 && labels != [] && pos + 1 + c <= |buf| && labels[0] == buf[pos + 1..pos + 1 + c]
         && NameAt(buf, pos + 1 + c, labels[1..], hops - 1)
  }

  /** Where the name at `pos` ends in place: behind the root label or the first pointer. */
  function NameEnd(buf: seq<byte>, pos: nat): nat
    decreases |buf| - pos
  {
    if pos >= |buf| then pos
    else if buf[pos] == 0 then pos + 1
    else if buf[pos] >= 192 then pos + 2
    else NameEnd(buf, pos + 1 + buf[pos])
  }

  function Appended(text: seq<byte>, labels: seq<seq<byte>>): seq<byte>
    decreases |labels|
  {
    if labels == [] then text
    else Appended(if text == [] then labels[0] else text + [DOT] + labels[0], labels[1..])
  }

  lemma {:induction false} AppendedGrows(text: seq<byte>, labels: seq<seq<byte>>)
    ensures |Appended(text, labels)| >= |text|
    decreases |labels|
  {
    if labels != [] {
      AppendedGrows(if text == [] then labels[0] else text + [DOT] + labels[0], labels[1..]);
    }
  }

  lemma {:induction false} AppendedJoin(text: seq<byte>, labels: seq<seq<byte>>)
    requires forall i :: 0 <= i < |labels| ==> labels[i] != []
    ensures Appended(text, labels) ==
      if text == [] then Join(labels) else if labels == [] then text else text + [DOT] + Join(labels)
    decreases |labels|
  {
    hide Join;
    if labels == [] {
      JoinStep([], []);
    } else {
      AppendedJoin(if text == [] then labels[0] else text + [DOT] + labels[0], labels[1..]);
      assert labels == [labels[0]] + labels[1..];
      JoinStep(labels[0], labels[1..]);
    }
  }

  lemma {:induction false} LabelsNonempty(buf: seq<byte>, pos: nat, labels: seq<seq<byte>>, hops: nat)
    requires NameAt(buf, pos, labels, hops)
    ensures forall i :: 0 <= i < |labels| ==> labels[i] != []
    decreases hops
  {
    var c := buf[pos];
    if c >= 192 {
      LabelsNonempty(buf, Offset(c, buf[pos + 1]), labels, hops - 1);
    } else if c != 0 {
      LabelsNonempty(buf, pos + 1 + c, labels[1..], hops - 1);
    }
  }

  /** The loop of decode_name on a well-formed name, from any point. */
  lemma {:induction false} LoopDenotes(buf: seq<byte>, pos: nat, labels: seq<seq<byte>>, hops: nat,
      steps: nat, jumped: bool, ret: int, text: seq<byte>)
    requires NameAt(buf, pos, labels, hops) && hops < steps && |text| < MAX_NAME_LEN
    ensures var full, d := Appended(text, labels), DecodeFrom(buf, pos, steps, jumped, ret, text);
            if |full| < MAX_NAME_LEN then d == Decoded(if jumped then ret else NameEnd(buf, pos), full, true)
            else d.ret == -1 && !d.terminated
    decreases hops
  {
    hide DecodeFrom;
    DecodeStep(buf, pos, steps, jumped, ret, text);
    var c := buf[pos];
    if c >= 192 {
      LoopDenotes(buf, Offset(c, buf[pos + 1]), labels, hops - 1, steps - 1, true,
          if jumped then ret else pos + 2, text);
    } else if c != 0 {
      var next := if text == [] then labels[0] else text + [DOT] + labels[0];
      AppendedGrows(next, labels[1..]);
      if |Dotted(text)| + c < MAX_NAME_LEN {
        assert Dotted(text) + buf[pos + 1..pos + 1 + c] == next;
        LoopDenotes(buf, pos + 1 + c, labels[1..], hops - 1, steps - 1, jumped, ret, next);
      }
    }
  }

  /**
   * decode_name returns the dotted join of the labels that section 4.1.4 of RFC 1035 denotes, for any chain of
   * at most 127 labels and pointers, when and only when the text fits; and the position behind the name.
   */
  lemma DecodeDenotes(buf: seq<byte>, pos: nat, labels: seq<seq<byte>>, hops: nat)
    requires NameAt(buf, pos, labels, hops) && hops < 128
    ensures if |Join(labels)| < 256 then Decode(buf, pos) == Decoded(NameEnd(buf, pos), Join(labels), true)
            else Decode(buf, pos).ret == -1
  {
    hide NameAt, DecodeFrom, Appended, Join, NameEnd;
    LabelsNonempty(buf, pos, labels, hops);
    AppendedJoin([], labels);
    LoopDenotes(buf, pos, labels, hops, MAX_STEPS, false, -1, []);
  }

  lemma NothingAppended(text: seq<byte>)
    ensures Appended(text, []) == text
  {
  }

  /** The dot is left out only where the label behind it does not fit either. */
  lemma DottedIs(text: seq<byte>, first: seq<byte>)
    requires |text| < MAX_NAME_LEN && first != []
    ensures var next := if text == [] then first else text + [DOT] + first;
            && (|Dotted(text)| + |first| < MAX_NAME_LEN <==> |next| < MAX_NAME_LEN)
            && (|next| < MAX_NAME_LEN ==> Dotted(text) + first == next)
  {
  }

  lemma AppendedFirst(text: seq<byte>, labels: seq<seq<byte>>)
    requires labels != []
    ensures Appended(text, labels) == Appended(if text == [] then labels[0] else text + [DOT] + labels[0], labels[1..])
  {
  }

  lemma {:induction false} JoinGrows(a: seq<seq<byte>>, b: seq<seq<byte>>)
    requires b != [] && b[0] != []
    ensures |Join(a + b)| > |Join(a)|
    decreases |a|
  {
    hide Join;
    JoinStep([], []);
    if a == [] {
      assert a + b == b == [b[0]] + b[1..];
      JoinStep(b[0], b[1..]);
    } else {
      JoinGrows(a[1..], b);
      assert a + b == [a[0]] + (a[1..] + b) && a == [a[0]] + a[1..];
      JoinStep(a[0], a[1..] + b);
      JoinStep(a[0], a[1..]);
    }
  }

  lemma {:induction false} EndBehind(buf: seq<byte>, pos: nat)
    ensures NameEnd(buf, pos) >= 0 && (pos < |buf| ==> NameEnd(buf, pos) > pos)
    decreases |buf| - pos
  {
    if pos < |buf| && 0 < buf[pos] < 192 {
      EndBehind(buf, pos + 1 + buf[pos]);
    }
  }

  // ----- Arbitrary bytes, and encoded names -----

  /** On arbitrary bytes a result is -1 or a position strictly behind the start and within the packet. */
  lemma {:induction false} LoopRange(buf: seq<byte>, pos: nat, steps: nat, jumped: bool, ret: int, text: seq<byte>)
    requires |text| < MAX_NAME_LEN
    ensures var d := DecodeFrom(buf, pos, steps, jumped, ret, text);
            d.ret == -1 || d.ret == ret || (!jumped && pos < d.ret <= |buf|)
    decreases steps
  {
    hide DecodeFrom, Dotted;
    DecodeStep(buf, pos, steps, jumped, ret, text);
    if pos < |buf| && steps > 0 {
      var c := buf[pos];
      if c >= 192 && pos + 1 < |buf| {
        LoopRange(buf, Offset(c, buf[pos + 1]), steps - 1, true, if jumped then ret else pos + 2, text);
      } else if 0 < c < 192 && pos + 1 + c <= |buf| && |Dotted(text)| + c < MAX_NAME_LEN {
        LoopRange(buf, pos + 1 + c, steps - 1, jumped, ret, Dotted(text) + buf[pos + 1..pos + 1 + c]);
      }
    }
  }

  lemma DecodeRange(buf: seq<byte>, pos: nat)
    ensures var d := Decode(buf, pos); d.ret == -1 || pos < d.ret <= |buf|
  {
    hide DecodeFrom;
    LoopRange(buf, pos, MAX_STEPS, false, -1, []);
  }

  /** The bytes `w` stand at `pos`. */
  ghost predicate Holds(buf: seq<byte>, pos: nat, w: seq<byte>) {
    pos + |w| <= |buf| && forall i :: 0 <= i < |w| ==> buf[pos + i] == w[i]
  }

  lemma HoldsParts(buf: seq<byte>, pos: nat, a: seq<byte>, b: seq<byte>)
    requires Holds(buf, pos, a + b)
    ensures Holds(buf, pos, a) && Holds(buf, pos + |a|, b)
  {
    forall i | 0 <= i < |a| ensures buf[pos + i] == a[i] {
      assert (a + b)[i] == a[i];
    }
    forall i | 0 <= i < |b| ensures buf[pos + |a| + i] == b[i] {
      assert buf[pos + (|a| + i)] == (a + b)[|a| + i];
    }
  }

  lemma HoldsByte(buf: seq<byte>, pos: nat, b: byte)
    requires Holds(buf, pos, [b])
    ensures pos < |buf| && buf[pos] == b
  {
    assert buf[pos + 0] == [b][0];
  }

  lemma HoldsSlice(buf: seq<byte>, pos: nat, w: seq<byte>)
    requires Holds(buf, pos, w)
    ensures pos + |w| <= |buf| && buf[pos..pos + |w|] == w
  {
  }

  /** An encoded name denotes its labels, without pointers. */
  lemma {:induction false} WireDenotes(buf: seq<byte>, pos: nat, labels: seq<seq<byte>>)
    requires ShortLabels(labels) && Holds(buf, pos, Wire(labels))
    ensures NameAt(buf, pos, labels, |labels|) && NameEnd(buf, pos) == pos + |Wire(labels)|
    ensures |Wire(labels)| >= 2 * |labels| + 1
    decreases |labels|
  {
    hide Wire, Holds;
    if labels == [] {
      WireStep([], []);
      HoldsByte(buf, pos, 0);
    } else {
      var first, rest := labels[0], labels[1..];
      assert labels == [first] + rest;
      WireStep(first, rest);
      HoldsParts(buf, pos, [|first| % 256] + first, Wire(rest));
      HoldsParts(buf, pos, [|first| % 256], first);
      HoldsByte(buf, pos, |first| % 256);
      HoldsSlice(buf, pos + 1, first);
      HoldsSlice(buf, pos + 1 + |first|, Wire(rest));
      WireDenotes(buf, pos + 1 + |first|, rest);
    }
  }

  /** Decoding what encode_name wrote gives the labels joined, whatever empty labels it dropped. */
  lemma DecodeEncoded(buf: seq<byte>, pos: nat, name: seq<byte>)
    requires |Encoded(name)| <= 255 && ShortLabels(Labels(name))
    requires Holds(buf, pos, Encoded(name))
    ensures Decode(buf, pos) == Decoded(pos + |Encoded(name)|, Join(Labels(name)), true)
  {
    hide Labels, Wire, NameAt, NameEnd, DecodeFrom, Join, ShortLabels, Holds;
    WireDenotes(buf, pos, Labels(name));
    DecodeDenotes(buf, pos, Labels(name), |Labels(name)|);
    JoinedFits(Labels(name));
  }

  lemma {:induction false} JoinedFits(labels: seq<seq<byte>>)
    ensures |Join(labels)| <= |Wire(labels)|
    decreases |labels|
  {
    hide Wire, Join;
    if labels == [] {
      JoinStep([], []);
    } else {
      assert labels == [labels[0]] + labels[1..];
      WireStep(labels[0], labels[1..]);
      JoinStep(labels[0], labels[1..]);
      JoinedFits(labels[1..]);
    }
  }

  /** For a well-formed name that is the name itself. */
  lemma WellFormedDecodes(buf: seq<byte>, pos: nat, name: seq<byte>)
    requires WellFormed(name)
    requires Holds(buf, pos, Encoded(name))
    ensures Decode(buf, pos) == Decoded(pos + |Encoded(name)|, name, true)
  {
    hide Labels, Wire, DecodeFrom, Join, ShortLabels, Tidy, Decode, Holds;
    DecodeEncoded(buf, pos, name);
    JoinLabels(name);
  }
}
