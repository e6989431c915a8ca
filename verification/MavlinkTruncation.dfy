/** MAVLink 1 frames of messages whose id needs more than the one octet they have for it. */
module MavlinkTruncation {
  import opened Bytes
  import opened Checksum
  import opened Mavlink
  import opened MavlinkSigning
  import opened MavlinkParser
  import opened MavlinkSender
  import opened MavlinkLink

  /** The message as its MAVLink 1 frame has it. */
  function Narrow(m: Msg): Msg {
    m.(msgid := m.msgid % 0x100)
  }

  lemma NarrowCovers(m: Msg)
    requires Shaped(m)
    ensures Shaped(Narrow(m)) && Covered(true, Narrow(m)) == Covered(true, m)
    ensures Frame(STX_MAVLINK1, true, Narrow(m)) == Frame(STX_MAVLINK1, true, m)
  {
  }

  // ----- Checksums with different extra octets -----

  lemma LowHighDetermine(a: bv16, b: bv16)
    requires Low(a) == Low(b) && High(a) == High(b)
    ensures a == b
  {
    hide *;
    LowDetermines(a, b);
    HighDetermines(a, b);
    WordOfOctets(a, b);
  }

  lemma LowDetermines(a: bv16, b: bv16)
    requires Low(a) == Low(b)
    ensures a & 0xff == b & 0xff
  {
    SameWord(a & 0xff, b & 0xff);
  }

  lemma HighDetermines(a: bv16, b: bv16)
    requires High(a) == High(b)
    ensures a >> 8 == b >> 8
  {
    SameWord(a >> 8, b >> 8);
  }

  lemma SameWord(x: bv16, y: bv16)
    requires x as int == y as int
    ensures x == y
  {
    WordRoundTrip(x);
    WordRoundTrip(y);
  }

  lemma WordRoundTrip(x: bv16)
    ensures (x as int) as bv16 == x
  {
  }

  lemma WordOfOctets(a: bv16, b: bv16)
    requires a & 0xff == b & 0xff && a >> 8 == b >> 8
    ensures a == b
  {
  }

  lemma ExtraDetermined(crc: bv16, c: byte, d: byte)
    ensures Accumulate(c, crc) == Accumulate(d, crc) <==> c == d
  {
    hide *;
    if c != d {
      OctetRoundTrip(c);
      OctetRoundTrip(d);
      AccumulateIs(c, crc);
      AccumulateIs(d, crc);
      if Accumulate(c, crc) == Accumulate(d, crc) {
        HighOctetDetermines(crc, c as bv8, d as bv8);
      }
    }
  }

  lemma AccumulateIs(c: byte, crc: bv16)
    ensures Accumulate(c, crc) == AccumulateBits(c as bv8, crc)
  {
    hide AccumulateBits;
  }

  // ----- Frames with the wrong checksum -----

  /** A frame without signature whose checksum is not the receiver's is not reported at its end. */
  lemma SpoiltUnreported(table: seq<Entry>, r: Rx, v1: bool, m: Msg)
    requires RxOk(r) && AtRest(r.state) && Shaped(m) && HeaderOk(v1, m) && !IsSigned(m)
    requires m.ck != [Low(FrameCrc(table, v1, m)), High(FrameCrc(table, v1, m))]
    ensures Run(table, r, Frame(if v1 then STX_MAVLINK1 else STX, v1, m)).received.Incomplete?
  {
    hide Run, ParseChar, FrameCrc, Low, High, Covered, Crc, Accumulate;
    var stx, p := if v1 then STX_MAVLINK1 else STX, Covered(v1, m);
    RunOne(table, r, stx);
    StartedBy(table, r, v1);
    var b := ParseChar(table, r, stx);
    CoveredFed(table, b, m);
    var q := WithCovered(b, m);
    RunOne(table, q, m.ck[0]);
    var s := ParseChar(table, q, m.ck[0]);
    WrongChecksum(table, b, m);
    RunOne(table, s, m.ck[1]);
    RunAppend(table, b, p, [m.ck[0]]);
    RunAppend(table, b, p + [m.ck[0]], [m.ck[1]]);
    RunAppend(table, r, [stx], p + [m.ck[0]] + [m.ck[1]]);
    assert Frame(stx, v1, m) == [stx] + (p + [m.ck[0]] + [m.ck[1]]);
  }

  lemma StartedBy(table: seq<Entry>, r: Rx, v1: bool)
    requires RxOk(r) && AtRest(r.state)
    ensures var b := ParseChar(table, r, if v1 then STX_MAVLINK1 else STX);
            b.state.GotStx? && b.v1 == v1 && b.msg.checksum == X25_INIT_CRC
  {
    hide OnLength, OnHeader, OnPayload, OnFirstCrc, OnSecondCrc, OnSignature;
  }

  lemma WrongChecksum(table: seq<Entry>, b: Rx, m: Msg)
    requires RxOk(b) && b.state.GotStx? && b.msg.checksum == X25_INIT_CRC && Shaped(m) && !IsSigned(m)
    requires m.ck != [Low(FrameCrc(table, b.v1, m)), High(FrameCrc(table, b.v1, m))]
    ensures var s := ParseChar(table, WithCovered(b, m), m.ck[0]); ParseChar(table, s, m.ck[1]).received.Incomplete?
  {
    hide Low, High, Covered, Crc, Accumulate, Lookup, OnLength, OnHeader, OnPayload, OnSignature;
    assert m.ck == [m.ck[0], m.ck[1]];
  }

  // ----- Ids of more than an octet -----

  /**
   * A message of any id in the table, sent in MAVLink 1: its frame is reported at its end exactly when the id cut
   * to one octet has the same extra octet and may come unsigned, and then as a message of that other id.
   */
  lemma TruncatedIdReported(table: seq<Entry>, r: Rx, tx: Tx, m: Msg, sysid: byte, compid: byte)
    requires RxOk(r) && AtRest(r.state) && tx.v1 && Shaped(m) && Lookup(table, m.msgid).Some?
    ensures var e := Lookup(table, m.msgid).value;
            var f := Finalized(tx, m, sysid, compid, e.minLen, e.maxLen, e.crcExtra).1;
            && Shaped(f)
            && (var s := Run(table, r, SendBuffer(f));
                && (s.received.FramingOk? <==>
                     && e.crcExtra == CrcExtra(table, m.msgid % 0x100)
                     && !RejectsUnsigned(r.auth, m.msgid % 0x100))
                && (s.received.FramingOk? ==> s.msg.msgid == m.msgid % 0x100 && s.msg.sysid == sysid
                                              && s.msg.compid == compid && s.msg.seqno == tx.seqno))
  {
    hide Run, ParseChar, Low, High, Covered, Crc, Accumulate, Lookup, Trim, Frame, SignatureBlock;
    var e := Lookup(table, m.msgid).value;
    var f := Finalized(tx, m, sysid, compid, e.minLen, e.maxLen, e.crcExtra).1;
    FinalizedPayload(tx, m, sysid, compid, e.minLen, e.maxLen, e.crcExtra);
    SentIsFrame(tx, m, sysid, compid, e.minLen, e.maxLen, e.crcExtra);
    var g := Narrow(Sent(f));
    NarrowCovers(Sent(f));
    SentCovers(true, f);
    var crc := Crc(X25_INIT_CRC, Covered(true, g));
    ExtraDetermined(crc, e.crcExtra, CrcExtra(table, m.msgid % 0x100));
    if g.ck == [Low(FrameCrc(table, true, g)), High(FrameCrc(table, true, g))] {
      LowHighDetermine(f.checksum, FrameCrc(table, true, g));
      FrameFed(table, r, true, g);
    } else {
      SpoiltUnreported(table, r, true, g);
    }
  }
}
