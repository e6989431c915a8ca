/** The receiver as the source keeps it: one status struct and one message buffer, updated in place per byte. */
module MavlinkChannel {
  import opened Bytes
  import opened Checksum
  import opened Mavlink
  import opened MavlinkSigning
  import opened MavlinkParser

  class Channel {
    const table: seq<Entry>
    const rxmsg: Message
    const signing: SigningState?
    const streams: SigningStreams?
    var parseState: ParseState
    var msgReceived: Framing
    var packetIdx: byte
    var inMavlink1: bool
    var signatureWait: byte

    constructor (table: seq<Entry>, signing: SigningState?, streams: SigningStreams?)
      requires SortedById(table) && table != []
      requires (signing != null ==> |signing.key| == 32) && (streams != null ==> streams.Valid())
      ensures Valid() && AtRest(Value().state) && this.table == table
      ensures fresh(rxmsg) && fresh(rxmsg.payload) && fresh(rxmsg.ck) && fresh(rxmsg.signature)
      ensures this.signing == signing && this.streams == streams
    {
      this.table, this.signing, this.streams := table, signing, streams;
      parseState, msgReceived, packetIdx, inMavlink1, signatureWait := Uninit, Incomplete, 0, false, 0;
      rxmsg := new Message();
    }

    ghost function Repr(): set<object?>
      reads this
    {
      {this, rxmsg, rxmsg.payload, rxmsg.ck, rxmsg.signature, signing, streams,
       if streams == null then null else streams.stream}
    }

    ghost predicate Wired()
      reads Repr()
    {
      && SortedById(table) && table != [] && rxmsg.Valid()
      && (signing != null ==> |signing.key| == 32) && (streams != null ==> streams.Valid())
    }

    ghost function Value(): Rx
      requires Wired()
      reads Repr()
    {
      Rx(parseState, msgReceived, packetIdx, inMavlink1, signatureWait, rxmsg.Value(), AuthOf(signing, streams))
    }

    ghost predicate Valid()
      reads Repr()
    {
      Wired() && RxOk(Value())
    }

    /** Feed one octet to the message checksum and move on. */
    method Store(next: ParseState, c: byte)
      requires Wired()
      modifies rxmsg`checksum, this`parseState
      ensures Wired() && Value() == old(Value()).(state := next, msg := Update(old(Value()).msg, c))
    {
      hide Accumulate;
      rxmsg.checksum := Accumulate(c, rxmsg.checksum);
      parseState := next;
    }

    method OnStart(c: byte)
      requires Valid() && (c == STX || c == STX_MAVLINK1)
      modifies this`parseState, this`inMavlink1, rxmsg
      ensures Wired() && Value() == Start(old(Value()), c)
    {
      parseState := GotStx;
      rxmsg.len, rxmsg.magic := 0, c;
      inMavlink1 := c == STX_MAVLINK1;
      rxmsg.checksum := X25_INIT_CRC;
    }

    method OnLengthOctet(c: byte)
      requires Valid() && parseState.GotStx?
      modifies this`parseState, this`packetIdx, rxmsg
      ensures Wired() && Value() == OnLength(old(Value()), c)
    {
      hide Accumulate;
      rxmsg.len := c;
      packetIdx := 0;
      if inMavlink1 {
        rxmsg.incompat, rxmsg.compat := 0, 0;
        Store(GotCompatFlags, c);
      } else {
        Store(GotLength, c);
      }
    }

    method OnHeaderOctet(c: byte)
      requires Valid() && InHeader(parseState)
      modifies this`parseState, rxmsg
      ensures Wired() && Value() == OnHeader(old(Value()), c)
    {
      hide Accumulate, Update;
      var after := if rxmsg.len > 0 then GotMsgid3 else GotPayload;
      match parseState {
        case GotLength =>
          rxmsg.incompat := c;
          if c > 1 {
            parseState := Idle;
          } else {
            Store(GotIncompatFlags, c);
          }
        case GotIncompatFlags => rxmsg.compat := c; Store(GotCompatFlags, c);
        case GotCompatFlags => rxmsg.seqno := c; Store(GotSeq, c);
        case GotSeq => rxmsg.sysid := c; Store(GotSysid, c);
        case GotSysid => rxmsg.compid := c; Store(GotCompid, c);
        case GotCompid => rxmsg.msgid := c; Store(if inMavlink1 then after else GotMsgid1, c);
        case GotMsgid1 => rxmsg.msgid := rxmsg.msgid + 0x100 * c; Store(GotMsgid2, c);
        case GotMsgid2 => rxmsg.msgid := rxmsg.msgid + 0x1_0000 * c; Store(after, c);
      }
    }

    method OnPayloadOctet(c: byte)
      requires Valid() && parseState.GotMsgid3?
      modifies this`parseState, this`packetIdx, rxmsg`checksum, rxmsg.payload
      ensures Wired() && Value() == OnPayload(old(Value()), c)
    {
      hide Accumulate, Update;
      rxmsg.payload[packetIdx] := c;
      packetIdx := packetIdx + 1;
      Store(if packetIdx == rxmsg.len then GotPayload else GotMsgid3, c);
    }

    method OnFirstCrcOctet(c: byte)
      requires Valid() && parseState.GotPayload?
      modifies this`parseState, rxmsg`checksum, rxmsg.payload, rxmsg.ck
      ensures Wired() && Value() == OnFirstCrc(table, old(Value()), c)
    {
      hide Accumulate, Update, Low, Lookup;
      var e := GetMsgEntry(table, rxmsg.msgid);
      Store(parseState, if e.Some? then e.value.crcExtra else 0);
      parseState := if c == Low(rxmsg.checksum) then GotCrc1 else GotBadCrc1;
      rxmsg.ck[0] := c;
      if e.Some? && packetIdx < e.value.maxLen {
        ghost var before := rxmsg.payload[..];
        forall i | packetIdx as int <= i < e.value.maxLen {
          rxmsg.payload[i] := 0;
        }
        assert rxmsg.payload[..] == ZeroFill(before, packetIdx, e.value.maxLen);
      }
    }

    method OnSecondCrcOctet(c: byte)
      requires Valid() && (parseState.GotCrc1? || parseState.GotBadCrc1?)
      modifies this`parseState, this`msgReceived, this`signatureWait, rxmsg.ck
      ensures Wired() && Value() == OnSecondCrc(old(Value()), c)
    {
      hide Accumulate, High;
      msgReceived := if parseState.GotBadCrc1? || c != High(rxmsg.checksum) then BadCrc else FramingOk;
      rxmsg.ck[1] := c;
      if rxmsg.incompat % 2 == 1 {
        parseState := SignatureWait;
        signatureWait := SIGNATURE_BLOCK_LEN;
        if msgReceived != BadCrc {
          msgReceived := Incomplete;
        }
      } else {
        if signing != null && rxmsg.msgid !in signing.accepts && msgReceived != BadCrc {
          msgReceived := FramingBadSignature;
        }
        parseState := Idle;
      }
    }

    method OnSignatureOctet(c: byte)
      requires Valid() && parseState.SignatureWait? && msgReceived.Incomplete?
      modifies this`parseState, this`msgReceived, this`signatureWait, rxmsg.signature, signing
      modifies streams, if streams == null then {} else {streams.stream}
      ensures Wired() && Value() == OnSignature(old(Value()), c)
    {
      hide Check;
      rxmsg.signature[SIGNATURE_BLOCK_LEN - signatureWait] := c;
      signatureWait := signatureWait - 1;
      if signatureWait == 0 {
        var ok := SignatureCheck(signing, streams, rxmsg);
        if !ok && signing != null && rxmsg.msgid in signing.accepts {
          ok := true;
        }
        msgReceived := if ok then FramingOk else FramingBadSignature;
        parseState := Idle;
      }
    }

    /** The states from the payload on. */
    method OnBodyOctet(c: byte)
      requires Valid() && msgReceived.Incomplete? && !AtRest(parseState) && !parseState.GotStx? && !InHeader(parseState)
      modifies this, rxmsg, rxmsg.payload, rxmsg.ck, rxmsg.signature, signing
      modifies streams, if streams == null then {} else {streams.stream}
      ensures Valid() && Value() == MavlinkParser.FrameChar(table, old(Value()), c)
    {
      hide OnLength, OnHeader, OnPayload, OnFirstCrc, OnSecondCrc, OnSignature, Start;
      if parseState.GotMsgid3? {
        OnPayloadOctet(c);
      } else if parseState.GotPayload? {
        OnFirstCrcOctet(c);
      } else if parseState.SignatureWait? {
        OnSignatureOctet(c);
      } else {
        OnSecondCrcOctet(c);
      }
    }

    /** The states up to the end of the header. */
    method OnFrontOctet(c: byte)
      requires Valid() && msgReceived.Incomplete? && (AtRest(parseState) || parseState.GotStx? || InHeader(parseState))
      modifies this`parseState, this`inMavlink1, this`packetIdx, rxmsg
      ensures Valid() && Value() == MavlinkParser.FrameChar(table, old(Value()), c)
    {
      hide OnLength, OnHeader, OnPayload, OnFirstCrc, OnSecondCrc, OnSignature, Start;
      if AtRest(parseState) {
        if c == STX || c == STX_MAVLINK1 {
          OnStart(c);
        }
      } else if parseState.GotStx? {
        OnLengthOctet(c);
      } else {
        OnHeaderOctet(c);
      }
    }

    /** mavlink_frame_char_buffer. */
    method FrameChar(c: byte) returns (received: Framing)
      requires Valid()
      modifies this, rxmsg, rxmsg.payload, rxmsg.ck, rxmsg.signature, signing
      modifies streams, if streams == null then {} else {streams.stream}
      ensures Valid() && Value() == MavlinkParser.FrameChar(table, old(Value()), c) && received == Value().received
    {
      hide MavlinkParser.FrameChar;
      ghost var r := Value();
      msgReceived := Incomplete;
      VerdictForgotten(table, r, c);
      if AtRest(parseState) || parseState.GotStx? || InHeader(parseState) {
        OnFrontOctet(c);
      } else {
        OnBodyOctet(c);
      }
      return msgReceived;
    }

    static lemma VerdictForgotten(table: seq<Entry>, r: Rx, c: byte)
      requires RxOk(r)
      ensures RxOk(r.(received := Incomplete))
      ensures MavlinkParser.FrameChar(table, r.(received := Incomplete), c) == MavlinkParser.FrameChar(table, r, c)
    {
    }

    /** Back to rest after a bad frame, or straight into the next one. */
    method Restart(c: byte)
      requires Valid()
      modifies this`msgReceived, this`parseState, rxmsg`len, rxmsg`checksum
      ensures Valid()
      ensures var r := old(Value());
              Value() == r.(received := Incomplete, state := if c == STX then GotStx else Idle,
                            msg := if c == STX then r.msg.(len := 0, checksum := X25_INIT_CRC) else r.msg)
    {
      msgReceived, parseState := Incomplete, Idle;
      if c == STX {
        parseState := GotStx;
        rxmsg.len, rxmsg.checksum := 0, X25_INIT_CRC;
      }
    }

    /** mavlink_parse_char. */
    method ParseChar(c: byte) returns (received: Framing)
      requires Valid()
      modifies this, rxmsg, rxmsg.payload, rxmsg.ck, rxmsg.signature, signing
      modifies streams, if streams == null then {} else {streams.stream}
      ensures Valid() && Value() == MavlinkParser.ParseChar(table, old(Value()), c) && received == Value().received
    {
      hide MavlinkParser.FrameChar, RxOk;
      received := FrameChar(c);
      if received.BadCrc? || received.FramingBadSignature? {
        Restart(c);
        return Incomplete;
      }
    }
  }
}
