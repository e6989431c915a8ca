/** The sender: mavlink_finalize_message_buffer and mavlink_msg_to_send_buffer. */
module MavlinkSender {
  import opened Bytes
  import opened Checksum
  import opened Mavlink
  import opened MavlinkSigning

  /** The transmit half of a channel. */
  datatype Tx = Tx(v1: bool, seqno: byte, signing: Option<Signing>)

  predicate Signs(tx: Tx) {
    !tx.v1 && tx.signing.Some? && tx.signing.value.outgoing
  }

  function WireLength(v1: bool, payload: seq<byte>, minLen: byte, length: byte): byte
    requires |payload| == PAYLOAD_ROOM
  {
    if v1 then minLen else Trim(payload, length)
  }

  /** The header fields, as finalizing sets them. */
  function Addressed(tx: Tx, m: Msg, sysid: byte, compid: byte, minLen: byte, length: byte): Msg
    requires Shaped(m)
  {
    m.(magic := if tx.v1 then STX_MAVLINK1 else STX, len := WireLength(tx.v1, m.payload, minLen, length),
       sysid := sysid, compid := compid, incompat := if Signs(tx) then 1 else 0, compat := 0, seqno := tx.seqno)
  }

  /** The checksum is stored in the message and right behind the payload. */
  function Checksummed(m: Msg, crc: bv16): (c: Msg)
    requires Shaped(m)
    ensures Shaped(c)
  {
    m.(checksum := crc, payload := m.payload[m.len as int := Low(crc)][m.len as int + 1 := High(crc)])
  }

  /** mavlink_finalize_message_buffer. */
  function Finalized(tx: Tx, m: Msg, sysid: byte, compid: byte, minLen: byte, length: byte, extra: byte): (Tx, Msg)
    requires Shaped(m)
  {
    var h := Addressed(tx, m, sysid, compid, minLen, length);
    var crc := Accumulate(extra, Crc(X25_INIT_CRC, Covered(tx.v1, h)));
    var c := Checksummed(h, crc);
    var next := tx.(seqno := (tx.seqno + 1) % 0x100);
    if Signs(tx) then
      (next.(signing := Some(Tick(tx.signing.value))),
          c.(signature := SignatureBlock(tx.signing.value, c, [Low(crc), High(crc)])))
    else (next, c)
  }

  /** mavlink_msg_to_send_buffer: the octets that go out. */
  function SendBuffer(m: Msg): seq<byte>
    requires Shaped(m)
  {
    var crc := [Low(m.checksum), High(m.checksum)];
    if m.magic == STX_MAVLINK1 then
      [m.magic] + Covered(true, m) + crc
    else
      [m.magic] + Covered(false, m.(len := Trim(m.payload, m.len))) + crc + (if IsSigned(m) then m.signature else [])
  }

  /** The finalized message as its frame: the checksum in its own field. */
  function Sent(m: Msg): (s: Msg)
    requires Shaped(m)
    ensures Shaped(s)
  {
    m.(ck := [Low(m.checksum), High(m.checksum)])
  }

  /** Finalizing keeps the payload it sends, stores the checksum right behind it, and keeps what is behind that. */
  lemma FinalizedPayload(tx: Tx, m: Msg, sysid: byte, compid: byte, minLen: byte, length: byte, extra: byte)
    requires Shaped(m)
    ensures var (next, f) := Finalized(tx, m, sysid, compid, minLen, length, extra);
            && Shaped(f) && f.len == WireLength(tx.v1, m.payload, minLen, length)
            && f.payload[..f.len] == m.payload[..f.len]
            && f.payload[f.len] == Low(f.checksum) && f.payload[f.len + 1] == High(f.checksum)
            && f.payload[f.len + 2..] == m.payload[f.len + 2..]
            && Covered(tx.v1, f) == Covered(tx.v1, Addressed(tx, m, sysid, compid, minLen, length))
  {
    hide Accumulate, Crc, Low, High, Trim, SignatureBlock;
    var (next, f) := Finalized(tx, m, sysid, compid, minLen, length, extra);
    assert f.payload[..f.len] == m.payload[..f.len];
    assert f.payload[f.len + 2..] == m.payload[f.len + 2..];
  }

  /** What goes out is exactly the frame of the finalized message: trimming again removes nothing. */
  lemma SentIsFrame(tx: Tx, m: Msg, sysid: byte, compid: byte, minLen: byte, length: byte, extra: byte)
    requires Shaped(m)
    ensures var f := Finalized(tx, m, sysid, compid, minLen, length, extra).1;
            Shaped(f) && SendBuffer(f) == Frame(if tx.v1 then STX_MAVLINK1 else STX, tx.v1, Sent(f))
  {
    hide Accumulate, Crc, Low, High, Trim, SignatureBlock, Header;
    var f := Finalized(tx, m, sysid, compid, minLen, length, extra).1;
    FinalizedPayload(tx, m, sysid, compid, minLen, length, extra);
    if !tx.v1 {
      TrimIdempotent(m.payload, length, f.payload);
      assert f.(len := Trim(f.payload, f.len)) == f;
    }
    SentCovers(tx.v1, f);
  }

  lemma SentCovers(v1: bool, m: Msg)
    requires Shaped(m)
    ensures Covered(v1, Sent(m)) == Covered(v1, m)
  {
    hide Low, High;
  }

  /** The checksum that goes out is the one the receiver computes, when both use the same extra octet. */
  lemma SentChecksum(table: seq<Entry>, tx: Tx, m: Msg, sysid: byte, compid: byte, minLen: byte, length: byte,
      extra: byte)
    requires Shaped(m) && extra == CrcExtra(table, m.msgid)
    ensures var f := Finalized(tx, m, sysid, compid, minLen, length, extra).1;
            Shaped(f) && f.checksum == FrameCrc(table, tx.v1, Sent(f))
  {
    hide Accumulate, Crc, Low, High, Trim, SignatureBlock, CrcExtra, Covered;
    var f := Finalized(tx, m, sysid, compid, minLen, length, extra).1;
    FinalizedPayload(tx, m, sysid, compid, minLen, length, extra);
    SentCovers(tx.v1, f);
  }

  // ----- The source's functions, in place -----

  class Sender {
    var outMavlink1: bool
    var currentTxSeq: byte
    const signing: SigningState?

    constructor (signing: SigningState?, outMavlink1: bool)
      ensures Value() == Tx(outMavlink1, 0, if signing == null then None else Some(signing.Value()))
    {
      this.outMavlink1, currentTxSeq, this.signing := outMavlink1, 0, signing;
    }

    ghost function Value(): Tx
      reads this, signing
    {
      Tx(outMavlink1, currentTxSeq, if signing == null then None else Some(signing.Value()))
    }

    /** The header of the message, and the checksum over it, its payload and the extra octet. */
    method Address(m: Message, sysid: byte, compid: byte, minLen: byte, length: byte)
      requires m.Valid()
      modifies this`currentTxSeq, m
      ensures m.Valid() && m.Value() == Addressed(old(Value()), old(m.Value()), sysid, compid, minLen, length)
      ensures Value() == old(Value()).(seqno := (old(currentTxSeq) + 1) % 0x100)
    {
      var signs := !outMavlink1 && signing != null && signing.outgoing;
      m.magic := if outMavlink1 then STX_MAVLINK1 else STX;
      if outMavlink1 {
        m.len := minLen;
      } else {
        m.len := TrimPayload(m.payload, length);
      }
      m.sysid, m.compid := sysid, compid;
      m.incompat, m.compat := if signs then 1 else 0, 0;
      m.seqno := currentTxSeq;
      currentTxSeq := (currentTxSeq + 1) % 0x100;
    }

    method Finalize(m: Message, sysid: byte, compid: byte, minLen: byte, length: byte, extra: byte) returns (total: nat)
      requires m.Valid() && (signing != null ==> |signing.key| == 32)
      modifies this`currentTxSeq, m, m.payload, m.signature, signing
      ensures m.Valid()
      ensures (Value(), m.Value()) == Finalized(old(Value()), old(m.Value()), sysid, compid, minLen, length, extra)
      ensures total == (if outMavlink1 then 8 else 12) + m.len
          + (if Signs(old(Value())) then SIGNATURE_BLOCK_LEN else 0)
    {
      hide SignatureBlock, Accumulate, Trim, Crc, Covered, WireLength;
      var signs := !outMavlink1 && signing != null && signing.outgoing;
      Address(m, sysid, compid, minLen, length);
      var crc := StoreChecksum(outMavlink1, m, extra);
      var signatureLen := 0;
      if signs {
        signatureLen := signing.SignPacket(m, [Low(crc), High(crc)]);
      }
      total := m.len + (if outMavlink1 then 6 else 10) + 2 + signatureLen;
    }
  }

  /** The checksum over header, payload and extra octet, stored behind the payload and in its own field. */
  method StoreChecksum(v1: bool, m: Message, extra: byte) returns (crc: bv16)
    requires m.Valid()
    modifies m`checksum, m.payload
    ensures m.Valid() && crc == Accumulate(extra, Crc(X25_INIT_CRC, Covered(v1, old(m.Value()))))
    ensures m.Value() == Checksummed(old(m.Value()), crc)
  {
    hide Accumulate, Crc, Low, High;
    ghost var before := m.Value();
    var header := HeaderOctets(v1, m, m.len);
    var payload := m.payload[..m.len];
    CrcAppend(X25_INIT_CRC, header, payload);
    assert header + payload == Covered(v1, before);
    crc := Accumulate(extra, Crc(Crc(X25_INIT_CRC, header), payload));
    m.payload[m.len], m.payload[m.len as int + 1] := Low(crc), High(crc);
    m.checksum := crc;
  }

  /** The header octets, laid out one by one. */
  method HeaderOctets(v1: bool, m: Message, len: byte) returns (h: seq<byte>)
    requires m.Valid()
    ensures h == Header(v1, m.Value().(len := len))
  {
    var id0: byte, id1: byte, id2: byte := m.msgid % 0x100, m.msgid / 0x100 % 0x100, m.msgid / 0x1_0000 % 0x100;
    if v1 {
      h := [len, m.seqno, m.sysid, m.compid, id0];
    } else {
      h := [len, m.incompat, m.compat, m.seqno, m.sysid, m.compid, id0, id1, id2];
    }
  }

  /** mavlink_msg_to_send_buffer. */
  method ToSendBuffer(buf: array<byte>, m: Message) returns (length: nat)
    requires m.Valid() && buf.Length >= 280 && buf != m.payload && buf != m.ck && buf != m.signature
    modifies buf
    ensures length <= buf.Length && buf[..length] == SendBuffer(m.Value())
  {
    hide Trim, Low, High;
    var len, v1 := m.len, m.magic == STX_MAVLINK1;
    if !v1 {
      len := TrimPayload(m.payload, len);
    }
    var header := HeaderOctets(v1, m, len);
    var octets := [m.magic] + header + m.payload[..len] + [Low(m.checksum), High(m.checksum)];
    if !v1 && m.incompat % 2 == 1 {
      octets := octets + m.signature[..];
    }
    assert m.payload[..len] == m.payload[..][..len] && |header| <= 9;
    assert octets == SendBuffer(m.Value());
    forall i | 0 <= i < |octets| {
      buf[i] := octets[i];
    }
    length := |octets|;
    assert buf[..length] == octets;
  }
}
