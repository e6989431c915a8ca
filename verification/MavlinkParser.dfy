/** The byte-at-a-time receiver: mavlink_frame_char_buffer and mavlink_parse_char. */
module MavlinkParser {
  import opened Bytes
  import opened Checksum
  import opened Mavlink
  import opened MavlinkSigning

  datatype ParseState =
    | Uninit | Idle | GotStx | GotLength | GotIncompatFlags | GotCompatFlags | GotSeq | GotSysid | GotCompid
    | GotMsgid1 | GotMsgid2 | GotMsgid3 | GotPayload | GotCrc1 | GotBadCrc1 | SignatureWait

  datatype Framing = Incomplete | FramingOk | BadCrc | FramingBadSignature

  /** A channel: parser state, message under construction, and the link's signing state. */
  datatype Rx = Rx(state: ParseState, received: Framing, idx: byte, v1: bool, wait: byte, msg: Msg, auth: Auth)

  predicate AtRest(s: ParseState) {
    s.Uninit? || s.Idle?
  }

  predicate InHeader(s: ParseState) {
    s.GotLength? || s.GotIncompatFlags? || s.GotCompatFlags? || s.GotSeq? || s.GotSysid? || s.GotCompid?
    || s.GotMsgid1? || s.GotMsgid2?
  }

  /** What every reachable channel satisfies; it is what keeps the buffer indices in range. */
  predicate RxOk(r: Rx) {
    && Shaped(r.msg)
    && (InHeader(r.state) ==> r.idx == 0)
    && (r.state.GotMsgid1? ==> r.msg.msgid < 0x100)
    && (r.state.GotMsgid2? ==> r.msg.msgid < 0x1_0000)
    && (r.state.GotMsgid3? ==> r.idx < r.msg.len)
    && (r.state.GotPayload? ==> r.idx == r.msg.len)
    && (r.state.SignatureWait? ==> 1 <= r.wait <= SIGNATURE_BLOCK_LEN)
  }

  function Update(m: Msg, c: byte): (u: Msg)
    ensures u == m.(checksum := u.checksum)
  {
    m.(checksum := Accumulate(c, m.checksum))
  }

  function Start(r: Rx, c: byte): (s: Rx)
    ensures RxOk(r) ==> RxOk(s)
  {
    r.(state := GotStx, v1 := c == STX_MAVLINK1, msg := r.msg.(len := 0, magic := c, checksum := X25_INIT_CRC))
  }

  /** After the last header octet: on to the payload, unless it is empty. */
  function AfterHeader(len: byte): ParseState {
    if len > 0 then GotMsgid3 else GotPayload
  }

  /** Zero-fill, to cope with payloads that arrive trimmed. */
  function ZeroFill(payload: seq<byte>, from: nat, to: nat): (p: seq<byte>)
    requires from <= |payload| && to <= |payload|
    ensures |p| == |payload|
    ensures forall i :: 0 <= i < |p| ==> p[i] == if from <= i < to then 0 else payload[i]
  {
    seq(|payload|, i requires 0 <= i < |payload| => if from <= i < to then 0 else payload[i])
  }

  function OnFirstCrc(table: seq<Entry>, r: Rx, c: byte): (s: Rx)
    requires RxOk(r)
    ensures RxOk(s)
  {
    var e := Lookup(table, r.msg.msgid);
    var m := Update(r.msg, CrcExtra(table, r.msg.msgid));
    r.(state := if c == Low(m.checksum) then GotCrc1 else GotBadCrc1,
       msg := m.(ck := m.ck[0 := c],
                 payload := if e.Some? && r.idx < e.value.maxLen
                            then ZeroFill(m.payload, r.idx, e.value.maxLen) else m.payload))
  }

  /** Whether a link with signing configured rejects an unsigned message of this type. */
  predicate RejectsUnsigned(a: Auth, msgid: nat) {
    a.Auth? && msgid !in a.signing.accepts
  }

  function OnSecondCrc(r: Rx, c: byte): (s: Rx)
    requires RxOk(r)
    ensures RxOk(s)
  {
    var good := r.state.GotCrc1? && c == High(r.msg.checksum);
    var m := r.msg.(ck := r.msg.ck[1 := c]);
    if IsSigned(m) then
      r.(state := SignatureWait, wait := SIGNATURE_BLOCK_LEN, msg := m, received := if good then Incomplete else BadCrc)
    else
      r.(state := Idle, msg := m,
         received := if !good then BadCrc
                     else if RejectsUnsigned(r.auth, m.msgid) then FramingBadSignature else FramingOk)
  }

  ghost function OnSignature(r: Rx, c: byte): (s: Rx)
    requires RxOk(r) && r.state.SignatureWait?
    ensures RxOk(s)
  {
    var m := r.msg.(signature := r.msg.signature[SIGNATURE_BLOCK_LEN - r.wait := c]);
    if r.wait > 1 then r.(wait := r.wait - 1, msg := m, received := Incomplete)
    else
      var (auth, good) := Check(r.auth, m);
      r.(wait := 0, msg := m, auth := auth, state := Idle,
         received := if good || !RejectsUnsigned(auth, m.msgid) then FramingOk else FramingBadSignature)
  }

  /** The header octets: each is stored, hashed, and moves the state on. */
  function OnHeader(r: Rx, c: byte): (s: Rx)
    requires RxOk(r) && InHeader(r.state)
    ensures RxOk(s)
  {
    var m := r.msg;
    match r.state
    case GotLength =>
      if c > 1 then r.(state := Idle, msg := m.(incompat := c))
      else r.(state := GotIncompatFlags, msg := Update(m.(incompat := c), c))
    case GotIncompatFlags => r.(state := GotCompatFlags, msg := Update(m.(compat := c), c))
    case GotCompatFlags => r.(state := GotSeq, msg := Update(m.(seqno := c), c))
    case GotSeq => r.(state := GotSysid, msg := Update(m.(sysid := c), c))
    case GotSysid => r.(state := GotCompid, msg := Update(m.(compid := c), c))
    case GotCompid => r.(state := if r.v1 then AfterHeader(m.len) else GotMsgid1, msg := Update(m.(msgid := c), c))
    case GotMsgid1 => r.(state := GotMsgid2, msg := Update(m.(msgid := m.msgid + 0x100 * c), c))
    case GotMsgid2 => r.(state := AfterHeader(m.len), msg := Update(m.(msgid := m.msgid + 0x1_0000 * c), c))
  }

  function OnLength(r: Rx, c: byte): (s: Rx)
    requires RxOk(r) && r.state.GotStx?
    ensures RxOk(s)
  {
    var m := Update(r.msg.(len := c), c);
    if r.v1 then r.(state := GotCompatFlags, idx := 0, msg := m.(incompat := 0, compat := 0))
    else r.(state := GotLength, idx := 0, msg := m)
  }

  function OnPayload(r: Rx, c: byte): (s: Rx)
    requires RxOk(r) && r.state.GotMsgid3?
    ensures RxOk(s)
  {
    var idx := r.idx + 1;
    r.(state := if idx == r.msg.len then GotPayload else GotMsgid3, idx := idx,
       msg := Update(r.msg.(payload := r.msg.payload[r.idx := c]), c))
  }

  /** mavlink_frame_char_buffer: one octet. */
  ghost function FrameChar(table: seq<Entry>, r0: Rx, c: byte): (s: Rx)
    requires RxOk(r0)
    ensures RxOk(s)
  {
    var r := r0.(received := Incomplete);
    if AtRest(r.state) then if c == STX || c == STX_MAVLINK1 then Start(r, c) else r
    else if r.state.GotStx? then OnLength(r, c)
    else if InHeader(r.state) then OnHeader(r, c)
    else if r.state.GotMsgid3? then OnPayload(r, c)
    else if r.state.GotPayload? then OnFirstCrc(table, r, c)
    else if r.state.SignatureWait? then OnSignature(r, c)
    else OnSecondCrc(r, c)
  }

  /** mavlink_parse_char: a bad frame resets the parser, which restarts at once on a MAVLink 2 start byte. */
  ghost function ParseChar(table: seq<Entry>, r0: Rx, c: byte): (r: Rx)
    requires RxOk(r0)
    ensures RxOk(r)
  {
    var r := FrameChar(table, r0, c);
    if r.received.BadCrc? || r.received.FramingBadSignature? then
      r.(received := Incomplete, state := if c == STX then GotStx else Idle,
         msg := if c == STX then r.msg.(len := 0, checksum := X25_INIT_CRC) else r.msg)
    else r
  }

  // ----- What the bytes since the start byte say about the state -----

  /** The octets a frame in progress has contributed after its start byte, read off the message. */
  function Received(r: Rx): seq<byte>
    requires RxOk(r)
  {
    var m := r.msg;
    var flags := if r.v1 then [] else [m.incompat, m.compat];
    match r.state
    case GotLength => [m.len]
    case GotIncompatFlags => [m.len, m.incompat]
    case GotCompatFlags => [m.len] + flags
    case GotSeq => [m.len] + flags + [m.seqno]
    case GotSysid => [m.len] + flags + [m.seqno, m.sysid]
    case GotCompid => [m.len] + flags + [m.seqno, m.sysid, m.compid]
    case GotMsgid1 => [m.len] + flags + [m.seqno, m.sysid, m.compid, m.msgid]
    case GotMsgid2 => [m.len] + flags + [m.seqno, m.sysid, m.compid, m.msgid % 0x100, m.msgid / 0x100]
    case GotMsgid3 => Header(r.v1, m) + m.payload[..r.idx]
    case GotPayload => Covered(r.v1, m)
    case GotCrc1 => Covered(r.v1, m) + m.ck[..1]
    case SignatureWait => Covered(r.v1, m) + m.ck + m.signature[..SIGNATURE_BLOCK_LEN - r.wait]
    case _ => []
  }

  predicate FlagsOk(r: Rx) {
    if r.state.SignatureWait? && !IsSigned(r.msg) then false
    else if r.v1 then !r.state.GotLength? && !r.state.GotIncompatFlags? && !r.state.GotMsgid1? && !r.state.GotMsgid2?
        && r.msg.incompat == 0
    else r.state.GotLength? || r.msg.incompat <= 1
  }

  predicate ZeroFilled(table: seq<Entry>, m: Msg)
    requires Shaped(m)
  {
    var e := Lookup(table, m.msgid);
    e.Some? ==> forall i :: m.len as int <= i < e.value.maxLen ==> m.payload[i] == 0
  }

  ghost predicate ChecksumOk(table: seq<Entry>, r: Rx)
    requires RxOk(r)
  {
    if r.state.GotCrc1? || r.state.SignatureWait? then
      && r.msg.checksum == FrameCrc(table, r.v1, r.msg) && r.msg.ck[0] == Low(r.msg.checksum)
      && (r.state.SignatureWait? ==> r.msg.ck[1] == High(r.msg.checksum)) && ZeroFilled(table, r.msg)
    else r.msg.checksum == Crc(X25_INIT_CRC, Received(r))
  }

  /** The state is what the octets since the start byte, `tail`, make it. */
  ghost predicate Tracks(table: seq<Entry>, r: Rx, tail: seq<byte>)
    requires RxOk(r)
  {
    if AtRest(r.state) then tail == []
    else
      && |tail| > 0 && (tail[0] == STX || tail[0] == STX_MAVLINK1)
      && (tail[0] == STX_MAVLINK1 ==> r.v1)
      && r.msg.magic == (if r.v1 then STX_MAVLINK1 else STX)
      && (r.state.GotBadCrc1? || r.state.GotStx? ||
          (FlagsOk(r) && tail[1..] == Received(r) && ChecksumOk(table, r)))
      && (r.state.GotStx? ==> |tail| == 1 && r.msg.checksum == X25_INIT_CRC)
  }

  /** The octets since the start byte after one more octet. */
  function Tail(tail: seq<byte>, r: Rx, c: byte): seq<byte> {
    if AtRest(r.state) then [] else if r.state.GotStx? then [c] else tail + [c]
  }

  /** A header octet lands in its field: MAVLink 1. */
  lemma HeaderOctetV1(r: Rx, c: byte)
    requires RxOk(r) && InHeader(r.state) && FlagsOk(r) && r.v1
    ensures var s := OnHeader(r, c); Received(s) == Received(r) + [c] && FlagsOk(s)
  {
    hide Update;
    var s := OnHeader(r, c);
    if r.state.GotCompid? {
      assert Header(true, s.msg) == Received(r) + [c];
      assert s.msg.payload[..0] == [];
    }
  }

  /** A header octet lands in its field: MAVLink 2. */
  lemma HeaderOctetV2(r: Rx, c: byte)
    requires RxOk(r) && InHeader(r.state) && FlagsOk(r) && !r.v1
    ensures var s := OnHeader(r, c); AtRest(s.state) || (Received(s) == Received(r) + [c] && FlagsOk(s))
  {
    hide Update, Header, Covered;
    if r.state.GotMsgid2? {
      LastHeaderOctetV2(r, c);
    }
  }

  lemma LastHeaderOctetV2(r: Rx, c: byte)
    requires RxOk(r) && r.state.GotMsgid2? && FlagsOk(r) && !r.v1
    ensures var s := OnHeader(r, c); Received(s) == Received(r) + [c] && FlagsOk(s)
  {
    hide Update, Header;
    var s := OnHeader(r, c);
    MsgidOctets(r.msg.msgid, c);
    HeaderIs(s.msg, r.msg.msgid % 0x100, r.msg.msgid / 0x100, c);
    assert Header(false, s.msg) == Received(r) + [c];
    assert s.msg.payload[..0] == [];
  }

  lemma MsgidOctets(id: nat, c: byte)
    requires id < 0x1_0000
    ensures var n := id + 0x1_0000 * c;
            n % 0x100 == id % 0x100 && n / 0x100 % 0x100 == id / 0x100 && n / 0x1_0000 % 0x100 == c
  {
    var n := id + 0x1_0000 * c;
    assert n / 0x1_0000 == c && n / 0x100 == id / 0x100 + 0x100 * c;
  }

  lemma HeaderIs(m: Msg, id0: byte, id1: byte, id2: byte)
    requires m.msgid % 0x100 == id0 && m.msgid / 0x100 % 0x100 == id1 && m.msgid / 0x1_0000 % 0x100 == id2
    ensures Header(false, m) == [m.len, m.incompat, m.compat, m.seqno, m.sysid, m.compid, id0, id1, id2]
  {
  }

  lemma HeaderHashed(r: Rx, c: byte)
    requires RxOk(r) && InHeader(r.state) && r.msg.checksum == Crc(X25_INIT_CRC, Received(r))
    ensures var s := OnHeader(r, c); AtRest(s.state) || s.msg.checksum == Crc(X25_INIT_CRC, Received(r) + [c])
    ensures OnHeader(r, c).received == r.received && OnHeader(r, c).v1 == r.v1
        && OnHeader(r, c).msg.magic == r.msg.magic
    ensures var s := OnHeader(r, c); AtRest(s.state) || InHeader(s.state) || s.state.GotMsgid3? || s.state.GotPayload?
  {
    hide Crc, Accumulate, Received;
    CrcSnoc(X25_INIT_CRC, Received(r), c);
  }

  lemma HeaderTracked(table: seq<Entry>, r: Rx, tail: seq<byte>, c: byte)
    requires RxOk(r) && Tracks(table, r, tail) && InHeader(r.state)
    ensures var s := OnHeader(r, c); Tracks(table, s, Tail(tail, s, c))
  {
    hide Crc, Accumulate, Received, OnHeader;
    HeaderHashed(r, c);
    if r.v1 {
      HeaderOctetV1(r, c);
    } else {
      HeaderOctetV2(r, c);
    }
    assert (tail + [c])[1..] == tail[1..] + [c];
  }

  lemma PayloadTracked(table: seq<Entry>, r: Rx, tail: seq<byte>, c: byte)
    requires RxOk(r) && Tracks(table, r, tail) && r.state.GotMsgid3?
    ensures var s := OnPayload(r, c); Tracks(table, s, Tail(tail, s, c))
  {
    hide Crc, Accumulate;
    CrcSnoc(X25_INIT_CRC, Received(r), c);
    var s := OnPayload(r, c);
    assert s.msg.payload[..r.idx + 1] == r.msg.payload[..r.idx] + [c];
    assert Received(s) == Received(r) + [c];
    assert (tail + [c])[1..] == tail[1..] + [c];
  }

  lemma LengthTracked(table: seq<Entry>, r: Rx, tail: seq<byte>, c: byte)
    requires RxOk(r) && Tracks(table, r, tail) && r.state.GotStx?
    ensures var s := OnLength(r, c); Tracks(table, s, Tail(tail, s, c))
  {
    hide Crc, Accumulate;
    CrcSnoc(X25_INIT_CRC, [], c);
    var s := OnLength(r, c);
    assert Received(s) == [] + [c];
    assert Crc(X25_INIT_CRC, []) == X25_INIT_CRC by { CrcEmpty(X25_INIT_CRC); }
  }

  lemma FirstCrcTracked(table: seq<Entry>, r: Rx, tail: seq<byte>, c: byte)
    requires RxOk(r) && Tracks(table, r, tail) && r.state.GotPayload?
    ensures var s := OnFirstCrc(table, r, c); Tracks(table, s, Tail(tail, s, c))
  {
    hide Crc, Accumulate, Lookup, Low, High;
    var s := OnFirstCrc(table, r, c);
    assert s.msg.payload[..s.msg.len] == r.msg.payload[..r.msg.len];
    assert Covered(s.v1, s.msg) == Covered(r.v1, r.msg);
    assert (tail + [c])[1..] == tail[1..] + [c];
    assert s.msg.ck[..1] == [c];
  }

  /** Whether the link's signing state lets a complete, intact message through. */
  ghost predicate Admits(a: Auth, m: Msg)
    requires Shaped(m)
  {
    if IsSigned(m) then Check(a, m).1 || !RejectsUnsigned(Check(a, m).0, m.msgid) else !RejectsUnsigned(a, m.msgid)
  }

  /** `f` is one whole intact frame, and the channel's message is what it carries. */
  ghost predicate FrameFound(table: seq<Entry>, auth: Auth, r: Rx, f: seq<byte>)
    requires RxOk(r)
  {
    && |f| > 0 && (f[0] == STX || f[0] == STX_MAVLINK1) && (f[0] == STX_MAVLINK1 ==> r.v1)
    && f == Frame(f[0], r.v1, r.msg)
    && r.msg.checksum == FrameCrc(table, r.v1, r.msg)
    && r.msg.ck == [Low(r.msg.checksum), High(r.msg.checksum)]
    && ZeroFilled(table, r.msg)
    && r.msg.magic == (if r.v1 then STX_MAVLINK1 else STX)
    && (if r.v1 then r.msg.incompat == 0 else r.msg.incompat <= 1)
    && Admits(auth, r.msg)
  }

  lemma SameFrame(table: seq<Entry>, v1: bool, m: Msg, n: Msg)
    requires Shaped(m) && Shaped(n) && n == m.(ck := n.ck, signature := n.signature)
    ensures Covered(v1, n) == Covered(v1, m) && FrameCrc(table, v1, n) == FrameCrc(table, v1, m)
    ensures ZeroFilled(table, n) == ZeroFilled(table, m)
  {
    hide Crc, Accumulate, Lookup, CrcExtra;
  }

  lemma SecondCrcTracked(table: seq<Entry>, r: Rx, tail: seq<byte>, c: byte)
    requires RxOk(r) && Tracks(table, r, tail) && (r.state.GotCrc1? || r.state.GotBadCrc1?)
    ensures var s := OnSecondCrc(r, c);
            && (s.received.Incomplete? ==> Tracks(table, s, Tail(tail, s, c)))
            && (s.received.FramingOk? ==> FrameFound(table, r.auth, s, tail + [c]))
  {
    hide Low, High, FrameCrc, ZeroFilled, Crc, Covered;
    var s := OnSecondCrc(r, c);
    if r.state.GotCrc1? && c == High(r.msg.checksum) {
      SameFrame(table, r.v1, r.msg, s.msg);
      assert s.msg.ck == [r.msg.ck[0], c] == r.msg.ck[..1] + [c];
      assert (tail + [c])[1..] == tail[1..] + [c];
      assert s.msg.signature[..0] == [];
      assert tail + [c] == [tail[0]] + Covered(s.v1, s.msg) + s.msg.ck;
    }
  }

  lemma SignatureTracked(table: seq<Entry>, r: Rx, tail: seq<byte>, c: byte)
    requires RxOk(r) && Tracks(table, r, tail) && r.state.SignatureWait?
    ensures var s := OnSignature(r, c);
            && (s.received.Incomplete? ==> Tracks(table, s, Tail(tail, s, c)))
            && (s.received.FramingOk? ==> FrameFound(table, r.auth, s, tail + [c]))
  {
    hide Low, High, FrameCrc, ZeroFilled, Crc, Covered, Check;
    var s, n := OnSignature(r, c), SIGNATURE_BLOCK_LEN - r.wait;
    SameFrame(table, r.v1, r.msg, s.msg);
    assert s.msg.signature[..n + 1] == r.msg.signature[..n] + [c];
    assert (tail + [c])[1..] == tail[1..] + [c];
    if r.wait == 1 {
      assert s.msg.signature[..n + 1] == s.msg.signature;
      assert tail + [c] == [tail[0]] + Covered(s.v1, s.msg) + s.msg.ck + s.msg.signature;
    }
  }

  lemma StartTracked(table: seq<Entry>, r: Rx, tail: seq<byte>, c: byte)
    requires RxOk(r) && Tracks(table, r, tail) && AtRest(r.state)
    ensures var s := FrameChar(table, r, c); Tracks(table, s, Tail(tail, s, c)) && s.received.Incomplete?
  {
  }

  lemma FrameCharTracked(table: seq<Entry>, r: Rx, tail: seq<byte>, c: byte)
    requires RxOk(r) && Tracks(table, r, tail)
    ensures var s := FrameChar(table, r, c);
            && (s.received.Incomplete? ==> Tracks(table, s, Tail(tail, s, c)))
            && (s.received.FramingOk? ==> FrameFound(table, r.auth, s, tail + [c]) && AtRest(s.state))
            && (!s.received.Incomplete? && !s.received.FramingOk? ==>
                |tail| > 0 && s.msg.magic == (if s.v1 then STX_MAVLINK1 else STX))
  {
    hide OnLength, OnHeader, OnPayload, OnFirstCrc, OnSecondCrc, OnSignature, ChecksumOk, Received, FlagsOk, FrameFound;
    var q := r.(received := Incomplete);
    assert Tracks(table, q, tail) by { ReceivedIgnoresVerdict(table, r); }
    Quiet(table, q, c);
    if AtRest(r.state) {
      StartTracked(table, r, tail, c);
    } else if r.state.GotStx? {
      LengthTracked(table, q, tail, c);
    } else if InHeader(r.state) {
      HeaderTracked(table, q, tail, c);
    } else if r.state.GotMsgid3? {
      PayloadTracked(table, q, tail, c);
    } else if r.state.GotPayload? {
      FirstCrcTracked(table, q, tail, c);
    } else if r.state.SignatureWait? {
      SignatureTracked(table, q, tail, c);
    } else {
      SecondCrcTracked(table, q, tail, c);
    }
  }

  lemma ReceivedIgnoresVerdict(table: seq<Entry>, r: Rx)
    requires RxOk(r)
    ensures var q := r.(received := Incomplete);
            RxOk(q) && Received(q) == Received(r) && ChecksumOk(table, q) == ChecksumOk(table, r)
                && FlagsOk(q) == FlagsOk(r)
  {
    hide Crc, Accumulate, Lookup, FrameCrc, ZeroFilled;
  }

  /** Which steps leave the verdict open, and what a verdict leaves behind. */
  lemma Quiet(table: seq<Entry>, r: Rx, c: byte)
    requires RxOk(r) && r.received.Incomplete?
    ensures r.state.GotStx? ==> OnLength(r, c).received.Incomplete?
    ensures InHeader(r.state) ==> OnHeader(r, c).received.Incomplete?
    ensures r.state.GotMsgid3? ==> OnPayload(r, c).received.Incomplete?
    ensures r.state.GotPayload? ==> OnFirstCrc(table, r, c).received.Incomplete?
    ensures var s := OnSecondCrc(r, c);
            s.v1 == r.v1 && s.msg.magic == r.msg.magic && (s.received.FramingOk? ==> AtRest(s.state))
    ensures r.state.SignatureWait? ==>
      var s := OnSignature(r, c);
      s.v1 == r.v1 && s.msg.magic == r.msg.magic && (s.received.FramingOk? ==> AtRest(s.state))
  {
    hide Update, Check, Lookup, CrcExtra, Low, High;
  }

  lemma ParseCharTracked(table: seq<Entry>, r: Rx, tail: seq<byte>, c: byte)
    requires RxOk(r) && Tracks(table, r, tail)
    ensures var s := ParseChar(table, r, c);
            && Tracks(table, s, Tail(tail, s, c))
            && (s.received.FramingOk? ==> FrameFound(table, r.auth, s, tail + [c]))
            && (s.received.FramingOk? || s.received.Incomplete?)
  {
    hide FrameChar, ChecksumOk, Received, FlagsOk, FrameFound;
    FrameCharTracked(table, r, tail, c);
  }

  // ----- Whole runs -----

  /** The channel after a byte stream. */
  ghost function Run(table: seq<Entry>, r: Rx, bs: seq<byte>): (s: Rx)
    requires RxOk(r)
    ensures RxOk(s)
    decreases |bs|
  {
    if bs == [] then r else ParseChar(table, Run(table, r, bs[..|bs| - 1]), bs[|bs| - 1])
  }

  /** Where in the stream the frame in progress started, or its end when there is none. */
  ghost function FrameStart(table: seq<Entry>, r: Rx, bs: seq<byte>): (k: nat)
    requires RxOk(r)
    ensures k <= |bs|
    decreases |bs|
  {
    var s := Run(table, r, bs);
    if bs == [] || AtRest(s.state) then |bs|
    else if s.state.GotStx? then |bs| - 1
    else FrameStart(table, r, bs[..|bs| - 1])
  }

  lemma {:induction false} RunTracked(table: seq<Entry>, r: Rx, bs: seq<byte>)
    requires RxOk(r) && AtRest(r.state)
    ensures Tracks(table, Run(table, r, bs), bs[FrameStart(table, r, bs)..])
    decreases |bs|
  {
    if bs == [] {
      hide Tracks, ParseChar, RxOk;
      RestTracks(table, r);
    } else {
      hide *;
      var front, c := bs[..|bs| - 1], bs[|bs| - 1];
      RunTracked(table, r, front);
      assert front + [c] == bs;
      RunLast(table, r, front, c);
      ParseCharTracked(table, Run(table, r, front), front[FrameStart(table, r, front)..], c);
      TailFromStart(table, r, front, c);
    }
  }

  lemma RunLast(table: seq<Entry>, r: Rx, front: seq<byte>, c: byte)
    requires RxOk(r)
    ensures Run(table, r, front + [c]) == ParseChar(table, Run(table, r, front), c)
  {
    hide RxOk, ParseChar;
    assert (front + [c])[..|front|] == front;
  }

  lemma TailFromStart(table: seq<Entry>, r: Rx, front: seq<byte>, c: byte)
    requires RxOk(r)
    ensures var bs, k := front + [c], FrameStart(table, r, front);
            bs[FrameStart(table, r, bs)..] == Tail(front[k..], Run(table, r, bs), c)
  {
    hide Run, RxOk, ParseChar;
    var bs, k := front + [c], FrameStart(table, r, front);
    assert bs[..|bs| - 1] == front && bs[k..] == front[k..] + [c];
    assert bs[|bs| - 1..] == [c] && bs[|bs|..] == [];
  }

  lemma RestTracks(table: seq<Entry>, r: Rx)
    requires RxOk(r) && AtRest(r.state)
    ensures Tracks(table, r, [])
  {
  }

  /**
   * The start byte of the frame in progress was seen either at rest, when it also selects the layout, or as
   * the last byte of a frame that failed, when the layout stays that of the failed frame.
   */
  lemma {:induction false} LayoutOfStart(table: seq<Entry>, r: Rx, bs: seq<byte>)
    requires RxOk(r) && AtRest(r.state) && !AtRest(Run(table, r, bs).state)
    ensures var k := FrameStart(table, r, bs);
            k < |bs| && Run(table, r, bs).v1 == (
              var before := Run(table, r, bs[..k]);
              if AtRest(before.state) then bs[k] == STX_MAVLINK1 else before.v1)
            && (AtRest(Run(table, r, bs[..k]).state) || bs[k] == STX)
    decreases |bs|
  {
    var front, c := bs[..|bs| - 1], bs[|bs| - 1];
    var s, q := Run(table, r, bs), Run(table, r, front);
    LayoutStep(table, q, c);
    if !s.state.GotStx? {
      LayoutOfStart(table, r, front);
      var k := FrameStart(table, r, front);
      assert bs[..k] == front[..k];
    }
  }

  lemma LayoutStep(table: seq<Entry>, r: Rx, c: byte)
    requires RxOk(r)
    ensures var s := ParseChar(table, r, c);
            && (s.state.GotStx? ==> s.v1 == (if AtRest(r.state) then c == STX_MAVLINK1 else r.v1))
            && (s.state.GotStx? && !AtRest(r.state) ==> c == STX)
            && (s.received.FramingOk? ==> s.v1 == r.v1 && !AtRest(r.state))
            && (!s.state.GotStx? && !AtRest(s.state) ==> s.v1 == r.v1 && !AtRest(r.state))
  {
    hide Update, Check, Lookup, CrcExtra, Low, High, ZeroFill;
  }

  /**
   * Soundness. Over every byte stream, whenever mavlink_parse_char reports a message, the bytes just fed end
   * in one contiguous intact frame that is exactly the message. The frame's start byte is the message's magic
   * exactly when the frame was not begun by the last byte of a failed MAVLink 1 frame.
   */
  lemma ReportedMessagesWereFramed(table: seq<Entry>, r: Rx, bs: seq<byte>)
    requires RxOk(r) && AtRest(r.state) && bs != [] && Run(table, r, bs).received.FramingOk?
    ensures var k := FrameStart(table, r, bs[..|bs| - 1]);
            var before, s := Run(table, r, bs[..k]), Run(table, r, bs);
            && k < |bs| && FrameFound(table, Run(table, r, bs[..|bs| - 1]).auth, s, bs[k..])
            && (bs[k] == s.msg.magic <==> AtRest(before.state) || !before.v1)
  {
    hide ParseChar, Tracks, Frame, FrameCrc, ZeroFilled, Admits;
    var front, c := bs[..|bs| - 1], bs[|bs| - 1];
    var q, k := Run(table, r, front), FrameStart(table, r, front);
    RunTracked(table, r, front);
    ParseCharTracked(table, q, front[k..], c);
    LayoutStep(table, q, c);
    LayoutOfStart(table, r, front);
    assert bs[k..] == front[k..] + [c] && bs[..k] == front[..k];
  }
}
