/** The announcing side of herald: responses, and what a query asks for. */
module HeraldServer {
  import opened Bytes
  import opened HeraldNames
  import opened HeraldDecoding

  const TYPE_A := 1
  const TYPE_PTR := 12
  const TYPE_TXT := 16
  const TYPE_SRV := 33
  const TYPE_ANY := 255
  const CLASS_IN := 1
  const CLASS_FLUSH := 0x8000
  const BUF_SIZE := 4096
  const HEADER: nat := 12

  /** herald_ctx_t; the address is kept as the four octets it has in network order. */
  datatype Context = Context(
    hostname: seq<byte>, service: seq<byte>, instance: seq<byte>, txt: seq<byte>, port: uint16, ipv4: seq<byte>)

  /** What main makes sure of: every text fits its array, and holds no NUL. */
  predicate Fits(ctx: Context) {
    && |ctx.hostname| < MAX_NAME_LEN && |ctx.service| < MAX_NAME_LEN && |ctx.instance| < MAX_NAME_LEN
    && |ctx.txt| < MAX_NAME_LEN && |ctx.ipv4| == 4
  }

  // ----- Records -----

  function Be16(v: nat): (b: seq<byte>)
    ensures |b| == 2
  {
    [v / 256 % 256, v % 256]
  }

  function Be32(v: nat): (b: seq<byte>)
    ensures |b| == 4
  {
    [v / 16777216 % 256, v / 65536 % 256, v / 256 % 256, v % 256]
  }

  /** The fixed part of a record behind its owner, without the length. */
  function Opening(owner: seq<byte>, kind: nat, class_: nat, ttl: uint32): seq<byte> {
    Encoded(owner) + (Be16(kind) + Be16(class_) + Be32(ttl))
  }

  /** Section 4.1.3 of RFC 1035: owner, type, class, time to live, and the data with its length. */
  function Record(owner: seq<byte>, kind: nat, class_: nat, ttl: uint32, data: seq<byte>): seq<byte> {
    Opening(owner, kind, class_, ttl) + Be16(|data|) + data
  }

  function PtrRecord(ctx: Context, ttl: uint32): seq<byte> {
    Record(ctx.service, TYPE_PTR, CLASS_IN, ttl, Encoded(ctx.instance))
  }

  function SrvData(ctx: Context): seq<byte> {
    Be16(0) + Be16(0) + Be16(ctx.port) + Encoded(ctx.hostname)
  }

  function SrvRecord(ctx: Context, ttl: uint32): seq<byte> {
    Record(ctx.instance, TYPE_SRV, CLASS_IN + CLASS_FLUSH, ttl, SrvData(ctx))
  }

  function TxtRecord(ctx: Context, ttl: uint32): seq<byte>
    requires Fits(ctx)
  {
    Record(ctx.instance, TYPE_TXT, CLASS_IN + CLASS_FLUSH, ttl, [|ctx.txt|] + ctx.txt)
  }

  function ARecord(ctx: Context, ttl: uint32): seq<byte> {
    Record(ctx.hostname, TYPE_A, CLASS_IN + CLASS_FLUSH, ttl, ctx.ipv4)
  }

  const RESPONSE_HEADER: seq<byte> := [0, 0, 0x84, 0, 0, 0, 0, 4, 0, 0, 0, 0]

  function Response(ctx: Context, ttl: uint32): seq<byte>
    requires Fits(ctx)
  {
    RESPONSE_HEADER + PtrRecord(ctx, ttl) + SrvRecord(ctx, ttl) + TxtRecord(ctx, ttl) + ARecord(ctx, ttl)
  }

  lemma {:induction false} EncodedSize(name: seq<byte>)
    ensures 1 <= |Encoded(name)| <= |name| + 2
    ensures name == [] ==> |Encoded(name)| == 1
    decreases |name|
  {
    hide Labels, Wire, LabelLength;
    LabelsStep(name);
    WireStep([], []);
    if name != [] {
      var n := LabelLength(name);
      if n == |name| {
        WireStep(name[..n], []);
        assert [name[..n]] + [] == [name[..n]];
      } else {
        var rest := name[n + 1..];
        EncodedSize(rest);
        WireStep(name[..n], Labels(rest));
        assert [] + Labels(rest) == Labels(rest);
      }
    }
  }

  // ----- Building a response -----

  method Put16(buf: array<byte>, pos: nat, v: uint16)
    requires pos + 2 <= buf.Length
    modifies buf
    ensures buf[..pos + 2] == old(buf[..pos]) + Be16(v)
    ensures forall i :: pos + 2 <= i < buf.Length ==> buf[i] == old(buf[i])
  {
    buf[pos], buf[pos + 1] := v / 256 % 256, v % 256;
  }

  method Put32(buf: array<byte>, pos: nat, v: uint32)
    requires pos + 4 <= buf.Length
    modifies buf
    ensures buf[..pos + 4] == old(buf[..pos]) + Be32(v)
  {
    buf[pos], buf[pos + 1] := v / 16777216 % 256, v / 65536 % 256;
    buf[pos + 2], buf[pos + 3] := v / 256 % 256, v % 256;
  }

  method PutBytes(buf: array<byte>, pos: nat, data: seq<byte>)
    requires pos + |data| <= buf.Length
    modifies buf
    ensures buf[..pos + |data|] == old(buf[..pos]) + data
  {
    forall i | 0 <= i < |data| {
      buf[pos + i] := data[i];
    }
  }

  method OpenRecord(buf: array<byte>, start: nat, owner: seq<byte>, kind: uint16, class_: uint16, ttl: uint32)
    returns (pos: nat)
    requires start + |Opening(owner, kind, class_, ttl)| <= buf.Length
    modifies buf
    ensures pos == start + |Opening(owner, kind, class_, ttl)|
    ensures buf[..pos] == old(buf[..start]) + Opening(owner, kind, class_, ttl)
  {
    hide Encoded, Be16, Be32;
    ghost var before := buf[..start];
    pos := EncodeName(buf, start, owner);
    Put16(buf, pos, kind);
    Put16(buf, pos + 2, class_);
    Put32(buf, pos + 4, ttl);
    pos := pos + 8;
  }

  /** The length of a record, filled in once its data is written. */
  method CloseRecord(buf: array<byte>, at: nat, end: nat, ghost front: seq<byte>, ghost data: seq<byte>)
    requires at + 2 <= end <= buf.Length && |data| < 0x1_0000
    requires buf[..at] == front && buf[at + 2..end] == data
    modifies buf
    ensures buf[..end] == front + Be16(|data|) + data
  {
    var length := end - (at + 2);
    buf[at], buf[at + 1] := length / 256 % 256, length % 256;
    assert buf[..at] == front && buf[at..at + 2] == Be16(length) && buf[at + 2..end] == data;
    assert buf[..end] == buf[..at] + buf[at..at + 2] + buf[at + 2..end];
  }

  method AppendPtr(buf: array<byte>, start: nat, ctx: Context, ttl: uint32) returns (pos: nat)
    requires Fits(ctx) && start + |PtrRecord(ctx, ttl)| <= buf.Length
    modifies buf
    ensures pos == start + |PtrRecord(ctx, ttl)| && buf[..pos] == old(buf[..start]) + PtrRecord(ctx, ttl)
  {
    hide Encoded, Be16, Opening;
    EncodedSize(ctx.instance);
    pos := OpenRecord(buf, start, ctx.service, TYPE_PTR, CLASS_IN, ttl);
    ghost var front := buf[..pos];
    var lengthAt := pos;
    pos := pos + 2;
    ghost var open := buf[..pos];
    assert open[..lengthAt] == front;
    pos := EncodeName(buf, pos, ctx.instance);
    CloseRecord(buf, lengthAt, pos, front, Encoded(ctx.instance));
  }

  /** Priority, weight, port and host of a service record. */
  method WriteService(buf: array<byte>, start: nat, ctx: Context) returns (pos: nat)
    requires start + |SrvData(ctx)| <= buf.Length
    modifies buf
    ensures pos == start + |SrvData(ctx)| && buf[..pos] == old(buf[..start]) + SrvData(ctx)
  {
    hide Encoded, Be16;
    pos := start;
    Put16(buf, pos, 0);
    pos := pos + 2;
    Put16(buf, pos, 0);
    pos := pos + 2;
    Put16(buf, pos, ctx.port);
    pos := pos + 2;
    pos := EncodeName(buf, pos, ctx.hostname);
  }

  method AppendSrv(buf: array<byte>, start: nat, ctx: Context, ttl: uint32) returns (pos: nat)
    requires Fits(ctx) && start + |SrvRecord(ctx, ttl)| <= buf.Length
    modifies buf
    ensures pos == start + |SrvRecord(ctx, ttl)| && buf[..pos] == old(buf[..start]) + SrvRecord(ctx, ttl)
  {
    EncodedSize(ctx.hostname);
    assert |SrvData(ctx)| < 0x1_0000;
    hide Encoded, Be16, Opening, SrvData;
    pos := OpenRecord(buf, start, ctx.instance, TYPE_SRV, CLASS_IN + CLASS_FLUSH, ttl);
    ghost var front := buf[..pos];
    var lengthAt := pos;
    pos := pos + 2;
    ghost var open := buf[..pos];
    assert open[..lengthAt] == front;
    pos := WriteService(buf, pos, ctx);
    CloseRecord(buf, lengthAt, pos, front, SrvData(ctx));
  }

  method AppendTxt(buf: array<byte>, start: nat, ctx: Context, ttl: uint32) returns (pos: nat)
    requires Fits(ctx) && start + |TxtRecord(ctx, ttl)| <= buf.Length
    modifies buf
    ensures pos == start + |TxtRecord(ctx, ttl)| && buf[..pos] == old(buf[..start]) + TxtRecord(ctx, ttl)
  {
    hide Encoded, Be16, Opening;
    pos := OpenRecord(buf, start, ctx.instance, TYPE_TXT, CLASS_IN + CLASS_FLUSH, ttl);
    var length := |ctx.txt| % 256;
    Put16(buf, pos, 1 + length);
    pos := pos + 2;
    PutBytes(buf, pos, [length] + ctx.txt[..length]);
    pos := pos + 1 + length;
    assert ctx.txt[..length] == ctx.txt;
  }

  method AppendA(buf: array<byte>, start: nat, ctx: Context, ttl: uint32) returns (pos: nat)
    requires Fits(ctx) && start + |ARecord(ctx, ttl)| <= buf.Length
    modifies buf
    ensures pos == start + |ARecord(ctx, ttl)| && buf[..pos] == old(buf[..start]) + ARecord(ctx, ttl)
  {
    hide Encoded, Be16, Opening;
    pos := OpenRecord(buf, start, ctx.hostname, TYPE_A, CLASS_IN + CLASS_FLUSH, ttl);
    Put16(buf, pos, 4);
    pos := pos + 2;
    PutBytes(buf, pos, ctx.ipv4);
    pos := pos + 4;
  }

  lemma RecordSize(owner: seq<byte>, kind: nat, class_: nat, ttl: uint32, data: seq<byte>)
    ensures |Record(owner, kind, class_, ttl, data)| <= |owner| + 12 + |data|
  {
    hide Encoded;
    EncodedSize(owner);
  }

  /** The buffer always has room for a response. */
  lemma ResponseFits(ctx: Context, ttl: uint32)
    requires Fits(ctx)
    ensures |Response(ctx, ttl)| <= BUF_SIZE
  {
    hide Encoded, Record, Be16;
    EncodedSize(ctx.instance);
    EncodedSize(ctx.hostname);
    RecordSize(ctx.service, TYPE_PTR, CLASS_IN, ttl, Encoded(ctx.instance));
    RecordSize(ctx.instance, TYPE_SRV, CLASS_IN + CLASS_FLUSH, ttl, SrvData(ctx));
    RecordSize(ctx.instance, TYPE_TXT, CLASS_IN + CLASS_FLUSH, ttl, [|ctx.txt|] + ctx.txt);
    RecordSize(ctx.hostname, TYPE_A, CLASS_IN + CLASS_FLUSH, ttl, ctx.ipv4);
  }

  /** build_response. */
  method BuildResponse(buf: array<byte>, ctx: Context, ttl: uint32) returns (pos: nat)
    requires Fits(ctx) && buf.Length == BUF_SIZE
    modifies buf
    ensures pos <= buf.Length && buf[..pos] == Response(ctx, ttl)
  {
    ResponseFits(ctx, ttl);
    hide PtrRecord, SrvRecord, TxtRecord, ARecord;
    forall i | 0 <= i < HEADER {
      buf[i] := 0;
    }
    buf[2], buf[3] := 0x84, 0;
    buf[6], buf[7] := 0, 4;
    assert buf[..HEADER] == RESPONSE_HEADER;
    pos := HEADER;
    pos := AppendPtr(buf, pos, ctx, ttl);
    pos := AppendSrv(buf, pos, ctx, ttl);
    pos := AppendTxt(buf, pos, ctx, ttl);
    pos := AppendA(buf, pos, ctx, ttl);
  }

  // ----- What a query asks for -----

  datatype Match = MatchNone | MatchPtr | MatchSrv | MatchA

  function Get16(buf: seq<byte>, pos: nat): (v: uint16)
    requires pos + 2 <= |buf|
  {
    256 * (buf[pos] as int) + buf[pos + 1] as int
  }

  function Lower(s: seq<byte>): seq<byte> {
    if s == [] then [] else [if 0x41 <= s[0] <= 0x5a then s[0] + 0x20 else s[0]] + Lower(s[1..])
  }

  /** strcasecmp. */
  predicate SameText(s: seq<byte>, t: seq<byte>) {
    Lower(s) == Lower(t)
  }

  function Classify(buf: seq<byte>, ctx: Context): Match {
    if |buf| < HEADER || Get16(buf, 2) >= 0x8000 then MatchNone
    else ClassifyFrom(buf, ctx, HEADER, Get16(buf, 4), MatchNone)
  }

  /** One question of classify_query. */
  function Asked(ctx: Context, name: seq<byte>, kind: nat, best: Match): Match {
    if SameText(name, ctx.service) then if kind == TYPE_PTR || kind == TYPE_ANY then MatchPtr else best
    else if SameText(name, ctx.instance) then if kind == TYPE_SRV || kind == TYPE_ANY then MatchSrv else best
    else if SameText(name, ctx.hostname) then if kind == TYPE_A || kind == TYPE_ANY then MatchA else best
    else best
  }

  function ClassifyFrom(buf: seq<byte>, ctx: Context, pos: nat, left: nat, best: Match): Match
    decreases left
  {
    if left == 0 || pos >= |buf| then best
    else
      var d := Decode(buf, pos);
      if d.ret < 0 || d.ret + 4 > |buf| then best
      else ClassifyFrom(buf, ctx, d.ret + 4, left - 1, Asked(ctx, CString(d.text), Get16(buf, d.ret), best))
  }

  /** classify_query. */
  method ClassifyQuery(buf: seq<byte>, ctx: Context) returns (best: Match)
    ensures best == Classify(buf, ctx)
  {
    hide Decode, CString, SameText, Get16;
    if |buf| < HEADER {
      return MatchNone;
    }
    var flags := Get16(buf, 2);
    if flags >= 0x8000 {
      return MatchNone;
    }
    var count := Get16(buf, 4);
    var pos := HEADER;
    best := MatchNone;
    var i := 0;
    while i < count && pos > 0 && pos < |buf|
      invariant i <= count && pos >= HEADER
      invariant ClassifyFrom(buf, ctx, pos, count - i, best) == Classify(buf, ctx)
    {
      var name := new byte[MAX_NAME_LEN];
      ghost var before := name[..];
      var next := DecodeName(buf, pos, name);
      if next < 0 || next + 4 > |buf| {
        break;
      }
      TerminatedText(Decode(buf, pos), before);
      DecodeRange(buf, pos);
      var kind := Get16(buf, next);
      pos := next + 4;
      var text := CString(name[..]);
      if SameText(text, ctx.service) {
        if kind == TYPE_PTR || kind == TYPE_ANY {
          best := MatchPtr;
        }
      } else if SameText(text, ctx.instance) {
        if kind == TYPE_SRV || kind == TYPE_ANY {
          best := MatchSrv;
        }
      } else if SameText(text, ctx.hostname) {
        if kind == TYPE_A || kind == TYPE_ANY {
          best := MatchA;
        }
      }
      i := i + 1;
    }
  }

  /** Behind its terminator the output buffer does not matter. */
  lemma TerminatedText(d: Decoded, before: seq<byte>)
    requires |before| == MAX_NAME_LEN && |d.text| < MAX_NAME_LEN && (d.ret >= 0 ==> d.terminated)
    ensures d.ret >= 0 ==> CString(Written(d, before)) == CString(d.text)
  {
    if d.ret >= 0 {
      CStringStops(d.text, before[|d.text| + 1..]);
    }
  }

  lemma {:induction false} CStringStops(s: seq<byte>, tail: seq<byte>)
    ensures CString(s + [0] + tail) == CString(s)
  {
    if s == [] {
      assert (s + [0] + tail)[0] == 0;
    } else {
      assert (s + [0] + tail)[1..] == s[1..] + [0] + tail;
      CStringStops(s[1..], tail);
    }
  }

  // ----- Conflicts while probing -----

  /** Behind the question section, or nothing when a question is cut short. */
  function SkipQuestions(buf: seq<byte>, pos: nat, left: nat): (r: Option<nat>)
    ensures r.Some? ==> r.value >= pos
    decreases left
  {
    if left == 0 || pos >= |buf| then Some(pos)
    else
      var d := Decode(buf, pos);
      DecodeRange(buf, pos);
      if d.ret < 0 || d.ret + 4 > |buf| then None else SkipQuestions(buf, d.ret + 4, left - 1)
  }

  function Records(buf: seq<byte>): nat
    requires |buf| >= HEADER
  {
    Get16(buf, 6) + Get16(buf, 8) + Get16(buf, 10)
  }

  /** Is there a record of that owner among the next `left`? */
  predicate Mentions(buf: seq<byte>, pos: nat, left: nat, name: seq<byte>)
    decreases left
  {
    if left == 0 || pos >= |buf| then false
    else
      var d := Decode(buf, pos);
      if d.ret < 0 || d.ret + 10 > |buf| then false
      else if SameText(CString(d.text), name) then true
      else
        var next := d.ret + 10 + Get16(buf, d.ret + 8);
        next <= |buf| && Mentions(buf, next, left - 1, name)
  }

  predicate ResponseContains(buf: seq<byte>, name: seq<byte>) {
    && |buf| >= HEADER
    && var start := SkipQuestions(buf, HEADER, Get16(buf, 4));
       start.Some? && Mentions(buf, start.value, Records(buf), name)
  }

  /** response_contains_name. */
  method ResponseContainsName(buf: seq<byte>, hostname: seq<byte>) returns (found: bool)
    ensures found == ResponseContains(buf, hostname)
  {
    hide Decode, CString, SameText, Get16;
    if |buf| < HEADER {
      return false;
    }
    var questions, records := Get16(buf, 4), Records(buf);
    var pos: nat, i: nat := HEADER, 0;
    ghost var start := SkipQuestions(buf, HEADER, questions);
    while i < questions && pos > 0 && pos < |buf|
      invariant i <= questions && pos >= HEADER && SkipQuestions(buf, pos, questions - i) == start
    {
      var tmp := new byte[MAX_NAME_LEN];
      var next := DecodeName(buf, pos, tmp);
      DecodeRange(buf, pos);
      if next < 0 || next + 4 > |buf| {
        return false;
      }
      pos := next + 4;
      i := i + 1;
    }
    ghost var goal := Mentions(buf, pos, records, hostname);
    i := 0;
    while i < records && pos > 0 && pos < |buf|
      invariant i <= records && pos >= HEADER && Mentions(buf, pos, records - i, hostname) == goal
    {
      var name := new byte[MAX_NAME_LEN];
      ghost var before := name[..];
      var next := DecodeName(buf, pos, name);
      DecodeRange(buf, pos);
      if next < 0 || next + 10 > |buf| {
        return false;
      }
      TerminatedText(Decode(buf, pos), before);
      if SameText(CString(name[..]), hostname) {
        return true;
      }
      pos := next + 10 + Get16(buf, next + 8);
      if pos > |buf| {
        return false;
      }
      i := i + 1;
    }
    found := false;
  }
}
