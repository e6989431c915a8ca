/** DNS names as both herald programs write and read them. */
module HeraldNames {
  import opened Bytes

  const DOT: byte := 0x2e
  const MAX_NAME_LEN := 256
  const MAX_STEPS := 128

  // ----- Dotted text and labels -----

  function LabelLength(name: seq<byte>): (n: nat)
    ensures n <= |name| && (n < |name| ==> name[n] == DOT)
  {
    if name == [] || name[0] == DOT then 0 else 1 + LabelLength(name[1..])
  }

  /** The labels between the dots; empty ones are dropped. */
  function Labels(name: seq<byte>): seq<seq<byte>>
    decreases |name|
  {
    if name == [] then []
    else
      var n := LabelLength(name);
      (if n > 0 then [name[..n]] else []) + (if n == |name| then [] else Labels(name[n + 1..]))
  }

  function Join(labels: seq<seq<byte>>): seq<byte> {
    if labels == [] then []
    else if |labels| == 1 then labels[0]
    else labels[0] + [DOT] + Join(labels[1..])
  }

  /** Section 3.1 of RFC 1035: a length octet before each label and the root label at the end. */
  function Wire(labels: seq<seq<byte>>): seq<byte> {
    if labels == [] then [0] else [|labels[0]| % 256] + labels[0] + Wire(labels[1..])
  }

  function Encoded(name: seq<byte>): seq<byte> {
    Wire(Labels(name))
  }

  /** No empty label: no dot at either end, no two in a row, and something there. */
  predicate Tidy(name: seq<byte>)
    decreases |name|
  {
    var n := LabelLength(name);
    n > 0 && (n == |name| || Tidy(name[n + 1..]))
  }

  /** Labels of 1 to 63 octets within the 255-octet limit of section 2.3.4 of RFC 1035. */
  predicate WellFormed(name: seq<byte>) {
    Tidy(name) && NulFree(name) && ShortLabels(Labels(name)) && |Encoded(name)| <= 255
  }

  predicate ShortLabels(labels: seq<seq<byte>>) {
    forall i :: 0 <= i < |labels| ==> 1 <= |labels[i]| <= 63
  }

  lemma LabelsStep(name: seq<byte>)
    ensures name == [] ==> Labels(name) == []
    ensures name != [] ==>
              var n := LabelLength(name);
              Labels(name) == (if n > 0 then [name[..n]] else []) + (if n == |name| then [] else Labels(name[n + 1..]))
  {
  }

  lemma {:induction false} NoEmptyLabels(name: seq<byte>)
    ensures forall i :: 0 <= i < |Labels(name)| ==> |Labels(name)[i]| > 0
    decreases |name|
  {
    if name != [] && LabelLength(name) < |name| {
      NoEmptyLabels(name[LabelLength(name) + 1..]);
    }
  }

  lemma JoinStep(first: seq<byte>, rest: seq<seq<byte>>)
    ensures Join([first] + rest) == if rest == [] then first else first + [DOT] + Join(rest)
    ensures Join([]) == []
  {
    assert ([first] + rest)[1..] == rest;
  }

  lemma TidyStep(name: seq<byte>)
    ensures var n := LabelLength(name); Tidy(name) <==> n > 0 && (n == |name| || Tidy(name[n + 1..]))
  {
    hide LabelLength;
  }

  /** Splitting and joining gives the name back exactly when nothing was dropped. */
  lemma {:induction false} JoinLabels(name: seq<byte>)
    ensures |Join(Labels(name))| <= |name|
    ensures Join(Labels(name)) == name <==> name == [] || Tidy(name)
    ensures |Join(Labels(name))| == |name| ==> name == [] || Tidy(name)
    decreases |name|
  {
    hide Labels, LabelLength, Join, Tidy;
    LabelsStep(name);
    TidyStep(name);
    var n := LabelLength(name);
    JoinStep(name[..n], []);
    assert [name[..n]] + [] == [name[..n]];
    if n < |name| {
      var rest := name[n + 1..];
      JoinLabels(rest);
      LabelsStep(rest);
      TidyStep(rest);
      assert name == name[..n] + [DOT] + rest;
      JoinStep(name[..n], Labels(rest));
      assert [] + Labels(rest) == Labels(rest);
    } else {
      assert name[..n] == name;
    }
  }

  lemma {:induction false} LabelEnds(first: seq<byte>, rest: seq<byte>)
    requires DOT !in first && (rest == [] || rest[0] == DOT)
    ensures LabelLength(first + rest) == |first|
  {
    if first == [] {
      assert first + rest == rest;
    } else {
      assert (first + rest)[1..] == first[1..] + rest && first[0] in first;
      LabelEnds(first[1..], rest);
    }
  }

  /** And joining and splitting gives the labels back when they are not empty and hold no dot. */
  lemma {:induction false} LabelsJoin(labels: seq<seq<byte>>)
    requires forall i :: 0 <= i < |labels| ==> labels[i] != [] && DOT !in labels[i]
    ensures Labels(Join(labels)) == labels
    decreases |labels|
  {
    hide LabelLength, Labels, Join;
    if labels == [] {
      JoinStep([], []);
      LabelsStep([]);
    } else {
      var first, rest := labels[0], labels[1..];
      assert labels == [first] + rest;
      JoinStep(first, rest);
      LabelsStep(Join(labels));
      if rest == [] {
        LabelEnds(first, []);
        assert first + [] == first && first[..|first|] == first;
      } else {
        LabelsJoin(rest);
        LabelEnds(first, [DOT] + Join(rest));
        assert first + ([DOT] + Join(rest)) == Join(labels);
        assert Join(labels)[..|first|] == first && Join(labels)[|first| + 1..] == Join(rest);
      }
    }
  }

  // ----- Writing -----

  /** encode_name. */
  method EncodeName(buf: array<byte>, start: nat, name: seq<byte>) returns (pos: nat)
    requires start + |Encoded(name)| <= buf.Length
    modifies buf
    ensures pos == start + |Encoded(name)|
    ensures buf[..pos] == old(buf[..start]) + Encoded(name)
  {
    hide Labels, Wire, LabelLength;
    pos := start;
    var p := 0;
    ghost var done: seq<byte>, all := [], Wire(Labels(name));
    assert name[0..] == name;
    while p < |name|
      invariant p <= |name| && done + Wire(Labels(name[p..])) == all
      invariant pos == start + |done| && buf[..pos] == old(buf[..start]) + done
    {
      var len := FindDot(name, p);
      WireAt(name, p);
      if len > 0 {
        pos := WriteLabel(buf, pos, name, p, len);
        done := done + ([len % 256] + name[p..][..len]);
      }
      p := if p + len == |name| then |name| else p + len + 1;
    }
    WireEnd(name, p);
    buf[pos] := 0;
    pos := pos + 1;
    assert buf[..pos] == old(buf[..start]) + done + [0];
  }

  /** What encode_name has left to write at `p`. */
  lemma WireAt(name: seq<byte>, p: nat)
    requires p < |name|
    ensures var n := LabelLength(name[p..]);
            var next := if p + n == |name| then |name| else p + n + 1;
            Wire(Labels(name[p..])) == (if n > 0 then [n % 256] + name[p..][..n] else []) + Wire(Labels(name[next..]))
  {
    hide Labels, LabelLength, Wire;
    LabelsStep(name[p..]);
    var n := LabelLength(name[p..]);
    if p + n == |name| {
      LabelsStep(name[|name|..]);
      WireStep(name[p..][..n], []);
      assert [name[p..][..n]] + [] == [name[p..][..n]];
    } else {
      var rest := Labels(name[p + n + 1..]);
      assert name[p..][n + 1..] == name[p + n + 1..];
      WireStep(name[p..][..n], rest);
      assert [] + rest == rest;
    }
  }

  lemma WireEnd(name: seq<byte>, p: nat)
    requires p == |name|
    ensures Wire(Labels(name[p..])) == [0]
  {
  }

  /** A length octet and the octets of one label. */
  method WriteLabel(buf: array<byte>, pos: nat, name: seq<byte>, p: nat, len: nat) returns (next: nat)
    requires pos + 1 + len <= buf.Length && p + len <= |name|
    modifies buf
    ensures next == pos + 1 + len
    ensures buf[..next] == old(buf[..pos]) + ([len % 256] + name[p..][..len])
  {
    buf[pos] := len % 256;
    forall i | 0 <= i < len {
      buf[pos + 1 + i] := name[p + i];
    }
    next := pos + 1 + len;
    assert buf[pos + 1..next] == name[p..][..len];
    assert buf[..next] == buf[..pos] + [buf[pos]] + buf[pos + 1..next];
  }

  /** strchr for a dot, from `p`: how far it is, or the end. */
  method FindDot(name: seq<byte>, p: nat) returns (len: nat)
    requires p <= |name|
    ensures len == LabelLength(name[p..])
  {
    len := 0;
    while p + len < |name| && name[p + len] != DOT
      invariant p + len <= |name| && LabelLength(name[p..]) == len + LabelLength(name[p + len..])
    {
      assert name[p + len..][1..] == name[p + len + 1..];
      len := len + 1;
    }
  }

  lemma WireStep(first: seq<byte>, rest: seq<seq<byte>>)
    ensures Wire([first] + rest) == [|first| % 256] + first + Wire(rest)
    ensures Wire([]) == [0] && |Wire(rest)| >= 1
  {
    assert ([first] + rest)[1..] == rest;
  }

  // ----- Reading -----

  /**
   * What decode_name gives: the position behind the name or -1, the text it has written, and whether it ended
   * by terminating that text. Without a terminator the result is always -1.
   */
  datatype Decoded = Decoded(ret: int, text: seq<byte>, terminated: bool)

  /** The offset in a compression pointer, section 4.1.4 of RFC 1035. */
  function Offset(c: byte, d: byte): nat
    requires c >= 192
  {
    256 * (c as int - 192) + d as int
  }

  /** decode_name from any point of its loop, with a number of steps left. */
  function DecodeFrom(buf: seq<byte>, pos: nat, steps: nat, jumped: bool, ret: int, text: seq<byte>): (d: Decoded)
    requires |text| < MAX_NAME_LEN
    ensures |d.text| < MAX_NAME_LEN && (!d.terminated ==> d.ret == -1)
    decreases steps
  {
    if pos >= |buf| || steps == 0 then Decoded(ret, text, true)
    else
      var c := buf[pos];
      if c >= 192 then
        if pos + 1 >= |buf| then Decoded(-1, text, false)
        else DecodeFrom(buf, Offset(c, buf[pos + 1]), steps - 1, true, if jumped then ret else pos + 2, text)
      else if c == 0 then Decoded(if jumped then ret else pos + 1, text, true)
      else if pos + 1 + c > |buf| then Decoded(-1, text, false)
      else
        var dotted := Dotted(text);
        if |dotted| + c >= MAX_NAME_LEN then Decoded(-1, dotted, false)
        else DecodeFrom(buf, pos + 1 + c, steps - 1, jumped, ret, dotted + buf[pos + 1..pos + 1 + c])
  }

  function Dotted(text: seq<byte>): (t: seq<byte>)
    ensures |text| < MAX_NAME_LEN ==> |t| < MAX_NAME_LEN
  {
    if 0 < |text| < MAX_NAME_LEN - 1 then text + [DOT] else text
  }

  function Decode(buf: seq<byte>, pos: nat): (d: Decoded)
    ensures |d.text| < MAX_NAME_LEN && (!d.terminated ==> d.ret == -1)
  {
    DecodeFrom(buf, pos, MAX_STEPS, false, -1, [])
  }

  lemma DecodeStep(buf: seq<byte>, pos: nat, steps: nat, jumped: bool, ret: int, text: seq<byte>)
    requires |text| < MAX_NAME_LEN
    ensures var d := DecodeFrom(buf, pos, steps, jumped, ret, text);
            if pos >= |buf| || steps == 0 then d == Decoded(ret, text, true)
            else
              var c := buf[pos];
              if c >= 192 then
                if pos + 1 >= |buf| then d == Decoded(-1, text, false)
                else d == DecodeFrom(buf, Offset(c, buf[pos + 1]), steps - 1, true,
                    if jumped then ret else pos + 2, text)
              else if c == 0 then d == Decoded(if jumped then ret else pos + 1, text, true)
              else if pos + 1 + c > |buf| then d == Decoded(-1, text, false)
              else
                var dotted := Dotted(text);
                if |dotted| + c >= MAX_NAME_LEN then d == Decoded(-1, dotted, false)
                else d == DecodeFrom(buf, pos + 1 + c, steps - 1, jumped, ret, dotted + buf[pos + 1..pos + 1 + c])
  {
    hide Dotted;
  }

  /** The output buffer afterwards: the text, a terminator if it got that far, and what was there before. */
  function Written(d: Decoded, before: seq<byte>): (after: seq<byte>)
    requires |before| == MAX_NAME_LEN && |d.text| < MAX_NAME_LEN
    ensures |after| == MAX_NAME_LEN
  {
    d.text + (if d.terminated then [0] else [before[|d.text|]]) + before[|d.text| + 1..]
  }

  lemma WrittenIs(d: Decoded, after: seq<byte>, before: seq<byte>)
    requires |before| == |after| == MAX_NAME_LEN && |d.text| < MAX_NAME_LEN
    requires after[..|d.text|] == d.text
    requires forall i :: |d.text| < i < MAX_NAME_LEN ==> after[i] == before[i]
    requires after[|d.text|] == if d.terminated then 0 else before[|d.text|]
    ensures after == Written(d, before)
  {
    assert after == after[..|d.text|] + [after[|d.text|]] + after[|d.text| + 1..];
    assert after[|d.text| + 1..] == before[|d.text| + 1..];
  }

  /** decode_name into a buffer of 256 bytes: the text, a terminator if it got that far, and what was there before. */
  method DecodeName(buf: seq<byte>, start: nat, out: array<byte>) returns (ret: int)
    requires out.Length == MAX_NAME_LEN
    modifies out
    ensures ret == Decode(buf, start).ret
    ensures out[..] == Written(Decode(buf, start), old(out[..]))
  {
    hide DecodeFrom, Dotted, Written;
    ghost var d, before, ended := Decode(buf, start), out[..], false;
    var jumped, retPos := false, -1;
    var pos: nat, steps: nat, outPos: nat := start, 0, 0;
    while pos < |buf| && steps < MAX_STEPS
      invariant steps <= MAX_STEPS && outPos < MAX_NAME_LEN
      invariant DecodeFrom(buf, pos, MAX_STEPS - steps, jumped, retPos, out[..outPos]) == d
      invariant (forall i :: outPos <= i < MAX_NAME_LEN ==> out[i] == before[i]) && !ended
      decreases MAX_STEPS - steps
    {
      DecodeStep(buf, pos, MAX_STEPS - steps, jumped, retPos, out[..outPos]);
      steps := steps + 1;
      var c := buf[pos];
      if c >= 192 {
        if pos + 1 >= |buf| {
          WrittenIs(d, out[..], before);
          return -1;
        }
        if !jumped {
          retPos := pos + 2;
        }
        pos := Offset(c, buf[pos + 1]);
        jumped := true;
      } else {
        if c == 0 {
          if !jumped {
            retPos := pos + 1;
          }
          ended := true;
          break;
        }
        pos := pos + 1;
        if pos + c > |buf| {
          WrittenIs(d, out[..], before);
          return -1;
        }
        var ok;
        ok, outPos := CopyLabel(buf, pos, c, out, outPos);
        if !ok {
          WrittenIs(d, out[..], before);
          return -1;
        }
        pos := pos + c;
      }
    }
    if !ended {
      DecodeStep(buf, pos, MAX_STEPS - steps, jumped, retPos, out[..outPos]);
    }
    ghost var text := out[..outPos];
    out[outPos] := 0;
    assert out[..outPos] == text;
    WrittenIs(d, out[..], before);
    ret := retPos;
  }

  /** memcpy. */
  method Copy(buf: seq<byte>, pos: nat, len: nat, out: array<byte>, at: nat)
    requires at + len <= out.Length && pos + len <= |buf|
    modifies out
    ensures out[..at + len] == old(out[..at]) + buf[pos..pos + len]
    ensures forall i :: at + len <= i < out.Length ==> out[i] == old(out[i])
  {
    forall i | 0 <= i < len {
      out[at + i] := buf[pos + i];
    }
  }

  /** The label part of decode_name: a dot behind earlier text, and the label if it fits. */
  method CopyLabel(buf: seq<byte>, pos: nat, len: nat, out: array<byte>, start: nat) returns (ok: bool, outPos: nat)
    requires out.Length == MAX_NAME_LEN && start < MAX_NAME_LEN && pos + len <= |buf|
    modifies out
    ensures var dotted := Dotted(old(out[..start]));
            && ok == (|dotted| + len < MAX_NAME_LEN)
            && outPos == (if ok then |dotted| + len else |dotted|) < MAX_NAME_LEN
            && out[..outPos] == (if ok then dotted + buf[pos..pos + len] else dotted)
    ensures outPos >= start && forall i :: outPos <= i < MAX_NAME_LEN ==> out[i] == old(out[i])
  {
    outPos := start;
    if outPos > 0 && outPos < out.Length - 1 {
      out[outPos] := DOT;
      outPos := outPos + 1;
    }
    assert out[..outPos] == Dotted(old(out[..start]));
    if outPos + len >= out.Length {
      return false, outPos;
    }
    Copy(buf, pos, len, out, outPos);
    outPos := outPos + len;
    ok := true;
  }
}
