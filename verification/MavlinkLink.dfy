/** A frame fed to the receiver is delivered: the other direction of the parser's soundness. */
module MavlinkLink {
  import opened Bytes
  import opened Checksum
  import opened Mavlink
  import opened MavlinkSigning
  import opened MavlinkParser

  lemma {:induction false} RunAppend(table: seq<Entry>, r: Rx, a: seq<byte>, b: seq<byte>)
    requires RxOk(r)
    ensures Run(table, r, a + b) == Run(table, Run(table, r, a), b)
    decreases |b|
  {
    hide ParseChar;
    if b == [] {
      assert a + b == a;
    } else {
      assert (a + b)[..|a + b| - 1] == a + b[..|b| - 1];
      RunAppend(table, r, a, b[..|b| - 1]);
    }
  }

  lemma RunOne(table: seq<Entry>, r: Rx, c: byte)
    requires RxOk(r)
    ensures Run(table, r, [c]) == ParseChar(table, r, c)
  {
    hide ParseChar;
    assert [c][..0] == [];
    assert Run(table, r, []) == r;
  }

  lemma RunThree(table: seq<Entry>, r: Rx, a: byte, b: byte, c: byte)
    requires RxOk(r)
    ensures Run(table, r, [a, b, c]) == ParseChar(table, ParseChar(table, ParseChar(table, r, a), b), c)
  {
    hide ParseChar, Run;
    RunOne(table, r, a);
    RunOne(table, ParseChar(table, r, a), b);
    RunOne(table, ParseChar(table, ParseChar(table, r, a), b), c);
    RunAppend(table, r, [a], [b]);
    RunAppend(table, r, [a, b], [c]);
    assert [a] + [b] == [a, b] && [a, b] + [c] == [a, b, c];
  }

  /** The channel part way through a frame: `m` holds what has arrived and its checksum so far. */
  function At(r: Rx, state: ParseState, m: Msg): Rx {
    r.(state := state, received := Incomplete, idx := 0, msg := m)
  }

  lemma LengthFed(table: seq<Entry>, r: Rx, len: byte)
    requires RxOk(r) && r.state.GotStx? && r.v1
    ensures ParseChar(table, r, len) ==
        At(r, GotCompatFlags, Update(r.msg.(len := len, incompat := 0, compat := 0), len))
  {
    hide OnHeader, OnPayload, OnFirstCrc, OnSecondCrc, OnSignature;
  }

  lemma FlagsFed(table: seq<Entry>, r: Rx, len: byte, incompat: byte, compat: byte)
    requires RxOk(r) && r.state.GotStx? && !r.v1 && incompat <= 1
    ensures Run(table, r, [len, incompat, compat])
         == At(r, GotCompatFlags, Update(Update(Update(r.msg.(len := len, incompat := incompat, compat := compat), len),
             incompat), compat))
  {
    hide Run, OnPayload, OnFirstCrc, OnSecondCrc, OnSignature, Crc, Accumulate;
    RunThree(table, r, len, incompat, compat);
    var r1 := At(r, GotLength, Update(r.msg.(len := len), len));
    assert ParseChar(table, r, len) == r1;
    var r2 := At(r, GotIncompatFlags, Update(r1.msg.(incompat := incompat), incompat));
    assert ParseChar(table, r1, incompat) == r2;
  }

  lemma IdsFed(table: seq<Entry>, r: Rx, seqno: byte, sysid: byte, compid: byte)
    requires RxOk(r) && r.state.GotCompatFlags?
    ensures Run(table, r, [seqno, sysid, compid])
         == At(r, GotCompid, Update(Update(Update(r.msg.(seqno := seqno, sysid := sysid, compid := compid), seqno),
             sysid), compid))
  {
    hide Run, OnPayload, OnFirstCrc, OnSecondCrc, OnSignature, Crc, Accumulate;
    RunThree(table, r, seqno, sysid, compid);
    var r1 := At(r, GotSeq, Update(r.msg.(seqno := seqno), seqno));
    assert ParseChar(table, r, seqno) == r1;
    var r2 := At(r, GotSysid, Update(r1.msg.(sysid := sysid), sysid));
    assert ParseChar(table, r1, sysid) == r2;
  }

  lemma MsgidFedV1(table: seq<Entry>, r: Rx, id: byte)
    requires RxOk(r) && r.state.GotCompid? && r.v1
    ensures ParseChar(table, r, id) == At(r, AfterHeader(r.msg.len), Update(r.msg.(msgid := id), id))
  {
    hide OnPayload, OnFirstCrc, OnSecondCrc, OnSignature, Crc, Accumulate;
  }

  lemma MsgidFedV2(table: seq<Entry>, r: Rx, id0: byte, id1: byte, id2: byte)
    requires RxOk(r) && r.state.GotCompid? && !r.v1
    ensures Run(table, r, [id0, id1, id2])
         == At(r, AfterHeader(r.msg.len),
             Update(Update(Update(r.msg.(msgid := id0 + 0x100 * id1 + 0x1_0000 * id2), id0), id1), id2))
  {
    hide Run, OnPayload, OnFirstCrc, OnSecondCrc, OnSignature, Crc, Accumulate;
    RunThree(table, r, id0, id1, id2);
    var r1 := At(r, GotMsgid1, Update(r.msg.(msgid := id0), id0));
    assert ParseChar(table, r, id0) == r1;
    var r2 := At(r, GotMsgid2, Update(r1.msg.(msgid := id0 + 0x100 * id1), id1));
    assert ParseChar(table, r1, id1) == r2;
  }

  lemma UpdateIsCrc(m: Msg, c: byte)
    ensures Update(m, c) == m.(checksum := Crc(m.checksum, [c]))
  {
    hide Accumulate;
    assert [c] == [] + [c];
    CrcSnoc(m.checksum, [], c);
    CrcEmpty(m.checksum);
  }

  lemma ThreeUpdates(m: Msg, a: byte, b: byte, c: byte)
    ensures Update(Update(Update(m, a), b), c) == m.(checksum := Crc(m.checksum, [a, b, c]))
  {
    hide Update, Crc, Accumulate;
    UpdateIsCrc(m, a);
    UpdateIsCrc(Update(m, a), b);
    UpdateIsCrc(Update(Update(m, a), b), c);
    CrcAppend(m.checksum, [a], [b]);
    CrcAppend(m.checksum, [a, b], [c]);
    assert [a] + [b] == [a, b] && [a, b] + [c] == [a, b, c];
  }

  /** The receiver's message once the header of `m` has arrived. */
  function WithHeader(base: Msg, v1: bool, m: Msg): Msg {
    base.(len := m.len, incompat := m.incompat, compat := m.compat, seqno := m.seqno,
          sysid := m.sysid, compid := m.compid, msgid := m.msgid, checksum := Crc(base.checksum, Header(v1, m)))
  }

  /** What a well-formed header looks like; MAVLink 1 carries no flags and a one-octet id. */
  predicate HeaderOk(v1: bool, m: Msg) {
    if v1 then m.incompat == 0 && m.compat == 0 && m.msgid < 0x100 else m.incompat <= 1 && m.msgid < 0x100_0000
  }

  lemma HeaderFedV1(table: seq<Entry>, r: Rx, m: Msg)
    requires RxOk(r) && r.state.GotStx? && r.v1 && HeaderOk(true, m)
    ensures Run(table, r, Header(true, m)) == At(r, AfterHeader(m.len), WithHeader(r.msg, true, m))
  {
    hide Run, ParseChar, Update, Crc, Accumulate;
    var r1 := ParseChar(table, r, m.len);
    LengthFed(table, r, m.len);
    RunOne(table, r, m.len);
    UpdateIsCrc(r.msg.(len := m.len, incompat := 0, compat := 0), m.len);
    IdsFed(table, r1, m.seqno, m.sysid, m.compid);
    ThreeUpdates(r1.msg.(seqno := m.seqno, sysid := m.sysid, compid := m.compid), m.seqno, m.sysid, m.compid);
    var r2 := Run(table, r1, [m.seqno, m.sysid, m.compid]);
    MsgidFedV1(table, r2, m.msgid);
    RunOne(table, r2, m.msgid);
    UpdateIsCrc(r2.msg.(msgid := m.msgid), m.msgid);
    var a, b, c := [m.len], [m.seqno, m.sysid, m.compid], [m.msgid];
    assert Header(true, m) == a + b + c;
    RunAppend(table, r, a, b);
    RunAppend(table, r, a + b, c);
    CrcAppend(r.msg.checksum, a, b);
    CrcAppend(r.msg.checksum, a + b, c);
  }

  lemma HeaderFedV2(table: seq<Entry>, r: Rx, m: Msg)
    requires RxOk(r) && r.state.GotStx? && !r.v1 && HeaderOk(false, m)
    ensures Run(table, r, Header(false, m)) == At(r, AfterHeader(m.len), WithHeader(r.msg, false, m))
  {
    hide Run, ParseChar, Update, Crc, Accumulate;
    var id0, id1, id2 := m.msgid % 0x100, m.msgid / 0x100 % 0x100, m.msgid / 0x1_0000 % 0x100;
    var a, b, c := [m.len, m.incompat, m.compat], [m.seqno, m.sysid, m.compid], [id0, id1, id2];
    FlagsFed(table, r, m.len, m.incompat, m.compat);
    ThreeUpdates(r.msg.(len := m.len, incompat := m.incompat, compat := m.compat), m.len, m.incompat, m.compat);
    var r1 := Run(table, r, a);
    IdsFed(table, r1, m.seqno, m.sysid, m.compid);
    ThreeUpdates(r1.msg.(seqno := m.seqno, sysid := m.sysid, compid := m.compid), m.seqno, m.sysid, m.compid);
    var r2 := Run(table, r1, b);
    MsgidFedV2(table, r2, id0, id1, id2);
    ThreeUpdates(r2.msg.(msgid := id0 + 0x100 * id1 + 0x1_0000 * id2), id0, id1, id2);
    assert id0 + 0x100 * id1 + 0x1_0000 * id2 == m.msgid;
    assert Header(false, m) == a + b + c;
    RunAppend(table, r, a, b);
    RunAppend(table, r, a + b, c);
    CrcAppend(r.msg.checksum, a, b);
    CrcAppend(r.msg.checksum, a + b, c);
  }

  lemma HeaderFed(table: seq<Entry>, r: Rx, m: Msg)
    requires RxOk(r) && r.state.GotStx? && HeaderOk(r.v1, m)
    ensures Run(table, r, Header(r.v1, m)) == At(r, AfterHeader(m.len), WithHeader(r.msg, r.v1, m))
  {
    if r.v1 {
      HeaderFedV1(table, r, m);
    } else {
      HeaderFedV2(table, r, m);
    }
  }

  /** Some of the payload has arrived. */
  function WithPayload(r: Rx, p: seq<byte>): Rx
    requires RxOk(r) && |p| <= r.msg.len
  {
    r.(state := if |p| == r.msg.len then GotPayload else GotMsgid3, idx := |p|,
       msg := r.msg.(payload := p + r.msg.payload[|p|..], checksum := Crc(r.msg.checksum, p)))
  }

  lemma {:induction false} PayloadFed(table: seq<Entry>, r: Rx, p: seq<byte>)
    requires RxOk(r) && r.state.GotMsgid3? && r.idx == 0 && r.received.Incomplete? && |p| <= r.msg.len
    ensures Run(table, r, p) == WithPayload(r, p)
    decreases |p|
  {
    hide Crc, Accumulate;
    if p == [] {
      CrcEmpty(r.msg.checksum);
      assert [] + r.msg.payload[0..] == r.msg.payload;
    } else {
      var front, c := p[..|p| - 1], p[|p| - 1];
      PayloadFed(table, r, front);
      PayloadOctetFed(table, r, front, c);
      assert p == front + [c];
    }
  }

  lemma PayloadOctetFed(table: seq<Entry>, r: Rx, front: seq<byte>, c: byte)
    requires RxOk(r) && r.state.GotMsgid3? && r.idx == 0 && r.received.Incomplete? && |front| < r.msg.len
    ensures ParseChar(table, WithPayload(r, front), c) == WithPayload(r, front + [c])
  {
    hide Crc, Accumulate, OnHeader, OnFirstCrc, OnSecondCrc, OnSignature;
    CrcSnoc(r.msg.checksum, front, c);
    var n := |front|;
    assert (front + r.msg.payload[n..])[n := c] == front + [c] + r.msg.payload[n + 1..];
  }

  /** Everything up to the checksum has arrived. */
  function WithCovered(r: Rx, m: Msg): Rx
    requires RxOk(r) && Shaped(m)
  {
    r.(state := GotPayload, received := Incomplete, idx := m.len,
       msg := r.msg.(len := m.len, incompat := m.incompat, compat := m.compat, seqno := m.seqno, sysid := m.sysid,
                     compid := m.compid, msgid := m.msgid, payload := m.payload[..m.len] + r.msg.payload[m.len..],
                     checksum := Crc(r.msg.checksum, Covered(r.v1, m))))
  }

  lemma CoveredFed(table: seq<Entry>, r: Rx, m: Msg)
    requires RxOk(r) && r.state.GotStx? && HeaderOk(r.v1, m) && Shaped(m)
    ensures Run(table, r, Covered(r.v1, m)) == WithCovered(r, m)
  {
    hide Run, ParseChar, Crc, Accumulate, Header;
    var h, p := Header(r.v1, m), m.payload[..m.len];
    HeaderFed(table, r, m);
    CrcAppend(r.msg.checksum, h, p);
    RunAppend(table, r, h, p);
    if m.len > 0 {
      PayloadFed(table, Run(table, r, h), p);
    } else {
      assert h + p == h && [] + r.msg.payload[0..] == r.msg.payload;
    }
  }

  /** A frame whose header is well formed and whose checksum matches. */
  ghost predicate Intact(table: seq<Entry>, v1: bool, m: Msg) {
    && Shaped(m) && HeaderOk(v1, m)
    && m.ck == [Low(FrameCrc(table, v1, m)), High(FrameCrc(table, v1, m))]
  }

  function Filled(table: seq<Entry>, payload: seq<byte>, m: Msg): (p: seq<byte>)
    requires |payload| == PAYLOAD_ROOM
    ensures |p| == PAYLOAD_ROOM
  {
    var e := Lookup(table, m.msgid);
    if e.Some? && m.len < e.value.maxLen then ZeroFill(payload, m.len, e.value.maxLen) else payload
  }

  /** The receiver's message once `m` has arrived over whatever the buffer held before. */
  function Arrived(table: seq<Entry>, v1: bool, base: Msg, m: Msg): (d: Msg)
    requires Shaped(base) && Shaped(m)
    ensures Shaped(d)
  {
    base.(len := m.len, incompat := m.incompat, compat := m.compat, seqno := m.seqno,
          sysid := m.sysid, compid := m.compid, msgid := m.msgid,
          payload := Filled(table, m.payload[..m.len] + base.payload[m.len..], m), ck := m.ck,
          checksum := FrameCrc(table, v1, m), signature := if IsSigned(m) then m.signature else base.signature)
  }

  ghost function AuthAfter(a: Auth, m: Msg): Auth
    requires Shaped(m)
  {
    if IsSigned(m) then Check(a, m).0 else a
  }

  lemma FirstCrcFed(table: seq<Entry>, r: Rx, m: Msg)
    requires RxOk(r) && r.state.GotStx? && r.msg.checksum == X25_INIT_CRC && Intact(table, r.v1, m)
    ensures ParseChar(table, WithCovered(r, m), m.ck[0])
         == WithCovered(r, m).(state := GotCrc1,
             msg := Arrived(table, r.v1, r.msg, m).(ck := r.msg.ck[0 := m.ck[0]], signature := r.msg.signature))
  {
    hide Crc, Accumulate, Low, High, Lookup, OnHeader, OnPayload, OnSecondCrc, OnSignature;
  }

  lemma SecondCrcFed(table: seq<Entry>, r: Rx, m: Msg)
    requires RxOk(r) && r.state.GotCrc1? && IsSigned(m) == IsSigned(r.msg) && Shaped(m) && m.ck[0] == r.msg.ck[0]
    requires m.ck[1] == High(r.msg.checksum)
    ensures var d := r.msg.(ck := m.ck);
            var s := ParseChar(table, r, m.ck[1]);
            var rejected := RejectsUnsigned(r.auth, r.msg.msgid);
            && (IsSigned(m) ==>
                s == r.(state := SignatureWait, received := Incomplete, wait := SIGNATURE_BLOCK_LEN, msg := d))
            && (!IsSigned(m) && !rejected ==> s == r.(state := Idle, received := FramingOk, msg := d))
            && (!IsSigned(m) && rejected ==> s.received.Incomplete?)
  {
    hide Crc, Accumulate, Low, High, Lookup, OnHeader, OnPayload, OnFirstCrc, OnSignature;
    assert r.msg.ck[1 := m.ck[1]] == m.ck;
  }

  /** Some of the signature block has arrived. */
  function WithSignature(r: Rx, p: seq<byte>): Rx
    requires RxOk(r) && |p| < SIGNATURE_BLOCK_LEN
  {
    r.(wait := SIGNATURE_BLOCK_LEN - |p|, msg := r.msg.(signature := p + r.msg.signature[|p|..]))
  }

  lemma {:induction false} SignatureFed(table: seq<Entry>, r: Rx, p: seq<byte>)
    requires RxOk(r) && r.state.SignatureWait? && r.wait == SIGNATURE_BLOCK_LEN && r.received.Incomplete?
    requires |p| < SIGNATURE_BLOCK_LEN
    ensures Run(table, r, p) == WithSignature(r, p)
    decreases |p|
  {
    if p == [] {
      assert [] + r.msg.signature[0..] == r.msg.signature;
    } else {
      var front, c := p[..|p| - 1], p[|p| - 1];
      SignatureFed(table, r, front);
      SignatureOctetFed(table, r, front, c);
      assert p == front + [c];
    }
  }

  lemma SignatureOctetFed(table: seq<Entry>, r: Rx, front: seq<byte>, c: byte)
    requires RxOk(r) && r.state.SignatureWait? && r.received.Incomplete? && |front| + 1 < SIGNATURE_BLOCK_LEN
    ensures ParseChar(table, WithSignature(r, front), c) == WithSignature(r, front + [c])
  {
    hide OnHeader, OnPayload, OnFirstCrc, OnSecondCrc, Check;
    var n := |front|;
    assert (front + r.msg.signature[n..])[n := c] == front + [c] + r.msg.signature[n + 1..];
  }

  lemma LastSignatureOctetFed(table: seq<Entry>, r: Rx, signature: seq<byte>)
    requires RxOk(r) && r.state.SignatureWait? && r.received.Incomplete? && |signature| == SIGNATURE_BLOCK_LEN
        && IsSigned(r.msg)
    ensures var d, n := r.msg.(signature := signature), SIGNATURE_BLOCK_LEN - 1;
            var s := ParseChar(table, WithSignature(r, signature[..n]), signature[n]);
            && (Admits(r.auth, d) ==>
                s == r.(state := Idle, received := FramingOk, wait := 0, msg := d, auth := Check(r.auth, d).0))
            && (!Admits(r.auth, d) ==> s.received.Incomplete?)
  {
    hide OnHeader, OnPayload, OnFirstCrc, OnSecondCrc, Check;
    var n := SIGNATURE_BLOCK_LEN - 1;
    assert (signature[..n] + r.msg.signature[n..])[n := signature[n]] == signature;
  }

  /** What follows the start byte. */
  function Body(v1: bool, m: Msg): seq<byte>
    requires Shaped(m)
  {
    Covered(v1, m) + m.ck + (if IsSigned(m) then m.signature else [])
  }

  /** The channel after a whole frame that the link admits. */
  ghost function Delivered(table: seq<Entry>, r: Rx, m: Msg): Rx
    requires RxOk(r) && Shaped(m)
  {
    var d := Arrived(table, r.v1, r.msg, m);
    r.(state := Idle, received := FramingOk, idx := m.len, wait := if IsSigned(m) then 0 else r.wait, msg := d,
       auth := AuthAfter(r.auth, d))
  }

  lemma ChecksumFed(table: seq<Entry>, r: Rx, m: Msg)
    requires RxOk(r) && r.state.GotStx? && r.msg.checksum == X25_INIT_CRC && Intact(table, r.v1, m)
    ensures var d := Arrived(table, r.v1, r.msg, m).(signature := r.msg.signature);
            var s := Run(table, r, Covered(r.v1, m) + m.ck);
            var rejected := RejectsUnsigned(r.auth, m.msgid);
            && (IsSigned(m) ==> s == r.(state := SignatureWait, received := Incomplete, idx := m.len,
                wait := SIGNATURE_BLOCK_LEN, msg := d))
            && (!IsSigned(m) && !rejected ==> s == r.(state := Idle, received := FramingOk, idx := m.len, msg := d))
            && (!IsSigned(m) && rejected ==> s.received.Incomplete?)
  {
    hide Run, ParseChar, FrameCrc, Low, High, Filled, Covered, Crc;
    var p, q := Covered(r.v1, m), WithCovered(r, m);
    CoveredFed(table, r, m);
    FirstCrcFed(table, r, m);
    RunOne(table, q, m.ck[0]);
    var s := ParseChar(table, q, m.ck[0]);
    SecondCrcFed(table, s, m);
    RunOne(table, s, m.ck[1]);
    RunAppend(table, r, p, [m.ck[0]]);
    RunAppend(table, r, p + [m.ck[0]], [m.ck[1]]);
    assert p + m.ck == p + [m.ck[0]] + [m.ck[1]];
  }

  /** From a start byte on, a frame is reported exactly when the link admits the message it carries. */
  lemma BodyFed(table: seq<Entry>, r: Rx, m: Msg)
    requires RxOk(r) && r.state.GotStx? && r.msg.checksum == X25_INIT_CRC && Intact(table, r.v1, m)
    ensures var s := Run(table, r, Body(r.v1, m));
            if Admits(r.auth, Arrived(table, r.v1, r.msg, m))
            then s == Delivered(table, r, m) else s.received.Incomplete?
  {
    hide Run, ParseChar, FrameCrc, Low, High, Filled, Covered, Crc, Check;
    ChecksumFed(table, r, m);
    var p := Covered(r.v1, m) + m.ck;
    if IsSigned(m) {
      var q, n := Run(table, r, p), SIGNATURE_BLOCK_LEN - 1;
      SignatureFed(table, q, m.signature[..n]);
      LastSignatureOctetFed(table, q, m.signature);
      RunOne(table, WithSignature(q, m.signature[..n]), m.signature[n]);
      RunAppend(table, q, m.signature[..n], [m.signature[n]]);
      assert m.signature == m.signature[..n] + [m.signature[n]];
      RunAppend(table, r, p, m.signature);
    } else {
      assert p + [] == p;
    }
  }

  function Begun(r: Rx, v1: bool): Rx {
    Start(r, if v1 then STX_MAVLINK1 else STX)
  }

  /** An idle channel fed a whole frame. */
  lemma FrameFed(table: seq<Entry>, r: Rx, v1: bool, m: Msg)
    requires RxOk(r) && AtRest(r.state) && Intact(table, v1, m)
    ensures var stx := if v1 then STX_MAVLINK1 else STX;
            var b := Begun(r, v1).(received := Incomplete);
            var s := Run(table, r, Frame(stx, v1, m));
            if Admits(r.auth, Arrived(table, v1, b.msg, m)) then s == Delivered(table, b, m) else s.received.Incomplete?
  {
    hide Run, FrameCrc, Low, High, Filled, Covered, Crc, Admits, Delivered, Arrived;
    var stx := if v1 then STX_MAVLINK1 else STX;
    RunOne(table, r, stx);
    var b := ParseChar(table, r, stx);
    BodyFed(table, b, m);
    RunAppend(table, r, [stx], Body(v1, m));
    assert Frame(stx, v1, m) == [stx] + Body(v1, m);
  }

  // ----- What is reported, byte by byte -----

  /** For every byte, the message reported at it, if any. */
  ghost function Reports(table: seq<Entry>, r: Rx, bs: seq<byte>): (o: seq<Option<Msg>>)
    requires RxOk(r)
    ensures |o| == |bs|
    decreases |bs|
  {
    if bs == [] then []
    else
      var s := Run(table, r, bs);
      Reports(table, r, bs[..|bs| - 1]) + [if s.received.FramingOk? then Some(s.msg) else None]
  }

  ghost predicate Silent(o: seq<Option<Msg>>) {
    forall i :: 0 <= i < |o| ==> o[i] == None
  }

  lemma {:induction false} ReportsAppend(table: seq<Entry>, r: Rx, a: seq<byte>, b: seq<byte>)
    requires RxOk(r)
    ensures Reports(table, r, a + b) == Reports(table, r, a) + Reports(table, Run(table, r, a), b)
    decreases |b|
  {
    hide Run;
    if b == [] {
      assert a + b == a;
    } else {
      assert (a + b)[..|a + b| - 1] == a + b[..|b| - 1];
      ReportsAppend(table, r, a, b[..|b| - 1]);
      RunAppend(table, r, a, b);
    }
  }

  lemma ReportRests(table: seq<Entry>, r: Rx, c: byte)
    requires RxOk(r)
    ensures ParseChar(table, r, c).received.FramingOk? ==> AtRest(ParseChar(table, r, c).state)
  {
    hide OnLength, OnHeader, OnPayload, OnFirstCrc, OnSecondCrc, OnSignature;
    Quiet(table, r.(received := Incomplete), c);
  }

  lemma {:induction false} SilentInFrame(table: seq<Entry>, r: Rx, bs: seq<byte>)
    requires RxOk(r) && bs != [] && FrameStart(table, r, bs) == 0
    ensures Silent(Reports(table, r, bs))
    decreases |bs|
  {
    hide ParseChar;
    var front := bs[..|bs| - 1];
    ReportRests(table, Run(table, r, front), bs[|bs| - 1]);
    if front != [] {
      SilentInFrame(table, r, front);
    }
  }

  /** Before its last byte a frame is still in progress, all of it. */
  lemma LastState(table: seq<Entry>, r: Rx, m: Msg)
    requires RxOk(r) && r.state.GotStx? && r.msg.checksum == X25_INIT_CRC && Intact(table, r.v1, m)
    ensures var body := Body(r.v1, m);
            var s := Run(table, r, body[..|body| - 1]);
            (s.state.GotCrc1? || s.state.SignatureWait?) && |Received(s)| == |body| - 1
  {
    hide Run, ParseChar, FrameCrc, Low, High, Filled, Header, Crc, Check;
    ChecksumFed(table, r, m);
    var p, body := Covered(r.v1, m), Body(r.v1, m);
    HeaderLengths(m);
    HeaderLengths(Run(table, r, body[..|body| - 1]).msg);
    if IsSigned(m) {
      var n := SIGNATURE_BLOCK_LEN - 1;
      var q := Run(table, r, p + m.ck);
      SignatureFed(table, q, m.signature[..n]);
      RunAppend(table, r, p + m.ck, m.signature[..n]);
      assert body[..|body| - 1] == p + m.ck + m.signature[..n];
    } else {
      CoveredFed(table, r, m);
      FirstCrcFed(table, r, m);
      RunOne(table, WithCovered(r, m), m.ck[0]);
      RunAppend(table, r, p, [m.ck[0]]);
      assert body[..|body| - 1] == p + [m.ck[0]];
    }
  }

  lemma HeaderLengths(m: Msg)
    ensures |Header(true, m)| == 5 && |Header(false, m)| == 9
  {
  }

  lemma FrameSilent(table: seq<Entry>, r: Rx, v1: bool, m: Msg)
    requires RxOk(r) && AtRest(r.state) && Intact(table, v1, m)
    ensures var f := Frame(if v1 then STX_MAVLINK1 else STX, v1, m); Silent(Reports(table, r, f[..|f| - 1]))
  {
    hide Run, FrameCrc, Low, High, Covered, Crc, Received, Reports;
    var stx := if v1 then STX_MAVLINK1 else STX;
    var f, body := Frame(stx, v1, m), Body(v1, m);
    var front := f[..|f| - 1];
    assert f == [stx] + body && front == [stx] + body[..|body| - 1];
    RunOne(table, r, stx);
    RunAppend(table, r, [stx], body[..|body| - 1]);
    LastState(table, ParseChar(table, r, stx), m);
    RunTracked(table, r, front);
    SilentInFrame(table, r, front);
  }

  // ----- Two properties the receiver does not have, and the inputs that show it -----

  function EmptyMessage(): (m: Msg)
    ensures Shaped(m) && HeaderOk(true, m) && m.len == 0 && !IsSigned(m)
  {
    Msg(0, 0, 0, 0, 0, 0, 0, 0, 0, seq(PAYLOAD_ROOM, _ => 0), [0, 0], seq(SIGNATURE_BLOCK_LEN, _ => 0))
  }

  /** A MAVLink 1 frame without payload, up to a wrong first checksum octet. */
  function SpoiltFrame(table: seq<Entry>): seq<byte> {
    [STX_MAVLINK1] + Covered(true, EmptyMessage()) + [if Low(FrameCrc(table, true, EmptyMessage())) == 0 then 1 else 0]
  }

  lemma SpoiltFrameFed(table: seq<Entry>, r: Rx)
    requires RxOk(r) && AtRest(r.state) && r.auth.Unsigned?
    ensures var s := Run(table, r, SpoiltFrame(table));
            s.state.GotBadCrc1? && s.v1 && s.msg.magic == STX_MAVLINK1 && !IsSigned(s.msg) && s.auth == r.auth
  {
    hide Run, Low, Crc, Accumulate, Covered, Lookup, OnSignature, OnHeader;
    var m := EmptyMessage();
    var x := if Low(FrameCrc(table, true, m)) == 0 then 1 else 0;
    RunOne(table, r, STX_MAVLINK1);
    var b := ParseChar(table, r, STX_MAVLINK1);
    CoveredFed(table, b, m);
    RunOne(table, WithCovered(b, m), x);
    RunAppend(table, r, [STX_MAVLINK1], Covered(true, m));
    RunAppend(table, r, [STX_MAVLINK1] + Covered(true, m), [x]);
  }

  /**
   * A message's magic need not be the byte its frame started with: after a failed MAVLink 1 frame that ends in
   * 0xFD, a MAVLink 1 body is reported as a MAVLink 1 message although a MAVLink 2 start byte precedes it.
   */
  lemma MagicNeedNotBeStartByte(table: seq<Entry>, r: Rx, m: Msg)
    requires RxOk(r) && AtRest(r.state) && r.auth.Unsigned? && Intact(table, true, m)
    ensures var s := Run(table, r, SpoiltFrame(table) + [STX] + Body(true, m));
            s.received.FramingOk? && s.msg.magic == STX_MAVLINK1 && s.msg.msgid == m.msgid
  {
    hide Run, FrameCrc, Low, High, Crc, Accumulate, Covered, Check, SpoiltFrame, Body, Filled;
    SpoiltFrameFed(table, r);
    var q := Run(table, r, SpoiltFrame(table));
    RunOne(table, q, STX);
    var b := ParseChar(table, q, STX);
    BodyFed(table, b, m);
    RunAppend(table, r, SpoiltFrame(table), [STX]);
    RunAppend(table, r, SpoiltFrame(table) + [STX], Body(true, m));
  }

  /** packet_idx stays within the payload in every state but one: between start byte and length it is left over. */
  ghost predicate IndexOk(r: Rx) {
    if r.state.GotStx? then r.msg.len == 0 else r.idx <= r.msg.len
  }

  lemma {:induction false} IndexWithinPayload(table: seq<Entry>, r: Rx, bs: seq<byte>)
    requires RxOk(r) && IndexOk(r)
    ensures IndexOk(Run(table, r, bs))
    decreases |bs|
  {
    hide ParseChar;
    if bs != [] {
      IndexWithinPayload(table, r, bs[..|bs| - 1]);
      IndexStep(table, Run(table, r, bs[..|bs| - 1]), bs[|bs| - 1]);
    }
  }

  lemma IndexStep(table: seq<Entry>, r: Rx, c: byte)
    requires RxOk(r) && IndexOk(r)
    ensures IndexOk(ParseChar(table, r, c))
  {
    hide Update, Check, Lookup, CrcExtra, Low, High;
  }

  /**
   * Exactly when the index is within the payload after a byte, read off the channel before it: unless that byte
   * starts a frame and an index is left over there.
   */
  lemma IndexExact(table: seq<Entry>, r: Rx, bs: seq<byte>, c: byte)
    requires RxOk(r) && IndexOk(r)
    ensures var q := Run(table, r, bs);
            var s := ParseChar(table, q, c);
            s.idx <= s.msg.len <==> !s.state.GotStx? || q.idx == 0
  {
    hide Run;
    IndexWithinPayload(table, r, bs);
    var q := Run(table, r, bs);
    IndexStep(table, q, c);
    StartKeepsIndex(table, q, c);
  }

  lemma StartKeepsIndex(table: seq<Entry>, r: Rx, c: byte)
    requires RxOk(r) && IndexOk(r)
    ensures ParseChar(table, r, c).state.GotStx? ==> ParseChar(table, r, c).idx == r.idx
  {
    hide Update, Check, Lookup, CrcExtra, Low, High;
  }

  /** The left-over index: after a frame with a payload, the next start byte leaves it beyond the new length. */
  lemma IndexLeftOver(table: seq<Entry>, r: Rx, v1: bool, m: Msg, c: byte)
    requires RxOk(r) && AtRest(r.state) && r.auth.Unsigned? && Intact(table, v1, m) && m.len > 0
    requires c == STX || c == STX_MAVLINK1
    ensures var s := Run(table, r, Frame(if v1 then STX_MAVLINK1 else STX, v1, m) + [c]);
            s.state.GotStx? && s.idx > s.msg.len
  {
    hide Run, FrameCrc, Low, High, Crc, Accumulate, Covered, Frame, Arrived;
    FrameFed(table, r, v1, m);
    var f := Frame(if v1 then STX_MAVLINK1 else STX, v1, m);
    RunOne(table, Run(table, r, f), c);
    RunAppend(table, r, f, [c]);
  }
}
