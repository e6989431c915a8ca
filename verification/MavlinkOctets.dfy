/** What MAVLink puts where: the octets of a frame, of a signature and under a signature, by position. */
module MavlinkOctets {
  import opened Bytes
  import opened Checksum
  import opened Mavlink
  import opened MavlinkSigning
  import opened MavlinkSender
  import opened MavlinkParser
  import opened MavlinkLink
  import Sha256

  // ----- Numbers in octets -----

  /** The number six octets stand for, the lowest octet first. */
  function SixLittle(s: seq<byte>): nat
    requires |s| == 6
  {
    0x1 * s[0] as int + 0x100 * s[1] as int + 0x1_0000 * s[2] as int
    + 0x100_0000 * s[3] as int + 0x1_0000_0000 * s[4] as int + 0x100_0000_0000 * s[5] as int
  }

  lemma SixOctetsLittle(s: seq<byte>)
    requires |s| == 6
    ensures FromLittleEndian(s) == SixLittle(s)
  {
    var t5, t4, t3, t2, t1 := s[5..], s[4..], s[3..], s[2..], s[1..];
    assert t5[1..] == [] && t4[1..] == t5 && t3[1..] == t4 && t2[1..] == t3 && t1[1..] == t2;
    assert FromLittleEndian(t5) == s[5] && FromLittleEndian(t4) == s[4] + 0x100 * FromLittleEndian(t5);
    assert FromLittleEndian(t3) == s[3] + 0x100 * FromLittleEndian(t4);
    assert FromLittleEndian(t2) == s[2] + 0x100 * FromLittleEndian(t3);
    assert FromLittleEndian(t1) == s[1] + 0x100 * FromLittleEndian(t2);
    assert FromLittleEndian(s) == s[0] + 0x100 * FromLittleEndian(t1);
  }

  /** A timestamp is cut to the 48 bits its octets hold. */
  lemma {:induction false} LittleEndianKeeps(n: nat, width: nat)
    ensures Pow256(width) > 0 && FromLittleEndian(LittleEndian(n, width)) == n % Pow256(width)
  {
    if width > 0 {
      LittleEndianKeeps(n / 0x100, width - 1);
      SplitModulo(n, Pow256(width - 1));
    }
  }

  lemma SplitModulo(n: nat, p: nat)
    requires p > 0
    ensures n % (0x100 * p) == n % 0x100 + 0x100 * (n / 0x100 % p)
  {
    var q := n / 0x100 / p;
    var r := n / 0x100 % p;
    assert n / 0x100 == q * p + r;
    assert n == 0x100 * (n / 0x100) + n % 0x100;
    assert 0x100 * (q * p) == (0x100 * p) * q by { Regrouped(q, p); }
    assert n == (0x100 * p) * q + (0x100 * r + n % 0x100);
    Remainder(n, 0x100 * p, q, 0x100 * r + n % 0x100);
  }

  lemma Regrouped(q: nat, p: nat)
    ensures 0x100 * (q * p) == (0x100 * p) * q
  {
  }

  lemma Remainder(n: nat, m: nat, q: nat, r: nat)
    requires m > 0 && n == m * q + r && r < m
    ensures n % m == r
  {
    var d := n / m - q;
    assert n == m * (n / m) + n % m;
    assert m * (n / m) - m * q == m * d;
    Multiple(m, d);
  }

  lemma Multiple(m: int, d: int)
    requires m > 0
    ensures d >= 1 ==> m * d >= m
    ensures d <= -1 ==> m * d <= -m
  {
    assert m * d - m == m * (d - 1) && m * d + m == m * (d + 1);
  }

  /** The checksum goes out low octet first. */
  lemma CrcOctets(c: bv16)
    ensures Low(c) + 0x100 * High(c) == c as int
  {
  }

  /** The check value of CRC-16/MCRF4XX: the checksum of the nine characters 1 to 9. */
  lemma ChecksumCheckValue()
    ensures Crc(0xffff, [0x31, 0x32, 0x33, 0x34, 0x35, 0x36, 0x37, 0x38, 0x39]) == 0x6f91
  {
    hide Crc, Accumulate;
    ChecksumSteps();
    var s1, s2, s3 := [0x31], [0x31, 0x32], [0x31, 0x32, 0x33];
    var s4, s5, s6 := s3 + [0x34], s3 + [0x34, 0x35], s3 + [0x34, 0x35, 0x36];
    var s7, s8 := s6 + [0x37], s6 + [0x37, 0x38];
    CrcEmpty(0xffff);
    CrcSnoc(0xffff, [], 0x31);
    CrcSnoc(0xffff, s1, 0x32);
    CrcSnoc(0xffff, s2, 0x33);
    CrcSnoc(0xffff, s3, 0x34);
    CrcSnoc(0xffff, s4, 0x35);
    CrcSnoc(0xffff, s5, 0x36);
    CrcSnoc(0xffff, s6, 0x37);
    CrcSnoc(0xffff, s7, 0x38);
    CrcSnoc(0xffff, s8, 0x39);
    assert [] + [0x31] == s1 && s1 + [0x32] == s2 && s2 + [0x33] == s3;
    assert s4 + [0x35] == s5 && s5 + [0x36] == s6 && s7 + [0x38] == s8;
    assert s8 + [0x39] == [0x31, 0x32, 0x33, 0x34, 0x35, 0x36, 0x37, 0x38, 0x39];
  }

  lemma ChecksumSteps()
    ensures Accumulate(0x31, 0xffff) == 0x2f8d && Accumulate(0x32, 0x2f8d) == 0x4d53
    ensures Accumulate(0x33, 0x4d53) == 0x634b && Accumulate(0x34, 0x634b) == 0x8b13
    ensures Accumulate(0x35, 0x8b13) == 0x44bf && Accumulate(0x36, 0x44bf) == 0x198d
    ensures Accumulate(0x37, 0x198d) == 0x1ac8 && Accumulate(0x38, 0x1ac8) == 0xf795
    ensures Accumulate(0x39, 0xf795) == 0x6f91
  {
  }

  // ----- What is under a signature -----

  /** The ten octets of the header, `s` having them from `k` on. */
  predicate HeaderAt(s: seq<byte>, k: nat, m: Msg)
    requires k + 10 <= |s|
  {
    && s[k] == m.magic && s[k + 1] == m.len && s[k + 2] == m.incompat && s[k + 3] == m.compat
    && s[k + 4] == m.seqno && s[k + 5] == m.sysid && s[k + 6] == m.compid
    && s[k + 7] as int + 0x100 * s[k + 8] as int + 0x1_0000 * s[k + 9] as int == m.msgid
  }

  lemma MsgidSplit(n: nat)
    requires n < 0x100_0000
    ensures n % 0x100 + n / 0x100 % 0x100 * 0x100 + n / 0x1_0000 % 0x100 * 0x1_0000 == n
  {
  }

  /** Key, ten header octets, payload, two checksum octets, link id and timestamp, each at its place. */
  lemma SignedOctetsAt(key: seq<byte>, m: Msg, crc: seq<byte>, idAndStamp: seq<byte>)
    requires Shaped(m) && |crc| == 2 && |idAndStamp| == 7
    ensures var s, k := SignedOctets(key, m, crc, idAndStamp), |key|;
            && |s| == k + 10 + m.len + 9 && s[..k] == key && HeaderAt(s, k, m)
            && (forall i :: 0 <= i < m.len as int ==> s[k + 10 + i] == m.payload[i])
            && s[k + 10 + m.len] == crc[0] && s[k + 11 + m.len] == crc[1]
            && (forall i :: 0 <= i < 7 ==> s[k + 12 + m.len + i] == idAndStamp[i])
  {
    MsgidSplit(m.msgid);
    var s, k := SignedOctets(key, m, crc, idAndStamp), |key|;
    assert s[..k] == key;
  }

  /** Nothing under a signature is left out: the octets determine all of it. */
  lemma SignedOctetsDetermine(key: seq<byte>, m: Msg, n: Msg, crc: seq<byte>, crc': seq<byte>, stamp: seq<byte>,
      stamp': seq<byte>)
    requires Shaped(m) && Shaped(n) && |crc| == |crc'| == 2 && |stamp| == |stamp'| == 7
    requires SignedOctets(key, m, crc, stamp) == SignedOctets(key, n, crc', stamp')
    ensures m.magic == n.magic && m.len == n.len && m.incompat == n.incompat && m.compat == n.compat
    ensures m.seqno == n.seqno && m.sysid == n.sysid && m.compid == n.compid && m.msgid == n.msgid
    ensures m.payload[..m.len] == n.payload[..n.len] && crc == crc' && stamp == stamp'
  {
    hide SignedOctets;
    SignedOctetsAt(key, m, crc, stamp);
    SignedOctetsAt(key, n, crc', stamp');
    SameMsgid(SignedOctets(key, m, crc, stamp), |key|, m, n);
    var s, k := SignedOctets(key, m, crc, stamp), |key|;
    forall i | 0 <= i < m.len ensures m.payload[i] == n.payload[i] {
      assert s[k + 10 + i] == m.payload[i];
    }
    forall i | 0 <= i < 7 ensures stamp[i] == stamp'[i] {
      assert s[k + 12 + m.len + i] == stamp[i];
    }
  }

  lemma SameMsgid(s: seq<byte>, k: nat, m: Msg, n: Msg)
    requires k + 10 <= |s| && HeaderAt(s, k, m) && HeaderAt(s, k, n)
    ensures m == n.(checksum := m.checksum, payload := m.payload, ck := m.ck, signature := m.signature)
  {
  }

  /** The 13 octets of a signature: link id, six octets of timestamp, six octets of hash. */
  lemma SignatureAt(s: Signing, m: Msg, crc: seq<byte>)
    requires Shaped(m)
    ensures var b := SignatureBlock(s, m, crc);
            && |b| == 13 && b[0] == s.linkId && SixLittle(b[1..7]) == s.timestamp % 0x1_0000_0000_0000
            && b[7..] == Sha256.Hash48(SignedOctets(s.key, m, crc, b[..7]))
  {
    hide Sha256.Hash48, SignedOctets, FromLittleEndian, LittleEndian;
    var stamp := LittleEndian(s.timestamp, 6);
    var b := SignatureBlock(s, m, crc);
    assert b[..7] == [s.linkId] + stamp && b[1..7] == stamp;
    SixOctetsLittle(stamp);
    SixOctets();
    LittleEndianKeeps(s.timestamp, 6);
  }

  /** Signing advances the clock by one tick, and changes nothing else of the signing state. */
  lemma TickExact(s: Signing)
    ensures s.timestamp < 0xffff_ffff_ffff_ffff ==> Tick(s) == s.(timestamp := s.timestamp + 1)
    ensures s.timestamp == 0xffff_ffff_ffff_ffff ==> Tick(s) == s.(timestamp := 0)
  {
  }

  // ----- The verdict of a link, number by number -----

  /** The stream of a message: its system and component ids, and the link id its signature starts with. */
  predicate StreamOf(s: Stream, m: Msg)
    requires |m.signature| == 13
  {
    s.sysid == m.sysid && s.compid == m.compid && s.link == m.signature[0]
  }

  /**
   * An authentic message of a known stream is good exactly when its timestamp is newer than that stream's; one
   * of a new stream exactly when fewer than 16 are known and it is at most 6000000 ticks behind the clock.
   */
  lemma VerdictExact(streams: seq<Stream>, clock: nat, m: Msg)
    requires Shaped(m) && (forall s :: s in streams ==> |s.stamp| == 6)
    requires TableOk(Auth(Signing(false, 0, 0, [], {}, NoStatus), Some(streams)))
    ensures forall i :: 0 <= i < |streams| && StreamOf(streams[i], m) ==>
      Verdict(streams, clock, m)
          == if SixLittle(m.signature[1..7]) <= SixLittle(streams[i].stamp) then Replay else StatusOk
    ensures (forall i :: 0 <= i < |streams| ==> !StreamOf(streams[i], m)) ==>
      Verdict(streams, clock, m)
          == if |streams| >= 16 then TooManyStreams
             else if SixLittle(m.signature[1..7]) + 6000000 < clock then OldTimestamp else StatusOk
  {
    hide FromLittleEndian, SixLittle;
    SixOctetsLittle(m.signature[1..7]);
    var k := Find(streams, m);
    forall i | 0 <= i < |streams| && StreamOf(streams[i], m)
      ensures Verdict(streams, clock, m)
          == if SixLittle(m.signature[1..7]) <= SixLittle(streams[i].stamp) then Replay else StatusOk
    {
      assert SameStream(streams[i], m);
      assert k < i ==> SameKey(streams[k], streams[i]);
      assert i == k;
      SixOctetsLittle(streams[i].stamp);
    }
    if k < |streams| {
      assert StreamOf(streams[k], m);
    }
  }

  /** An accepted message leaves its stream with its own stamp, the others as they were, and the later clock. */
  lemma AcceptedExact(a: Auth, m: Msg)
    requires Shaped(m) && a.Auth? && TableOk(a) && Check(a, m).1
    ensures Check(a, m).0.Auth? && Check(a, m).0.streams.Some? && a.streams.Some?
    ensures var was, b := a.streams.value, Check(a, m).0;
            var now, mine := b.streams.value, Stream(m.sysid, m.compid, m.signature[0], m.signature[1..7]);
            && b.signing.timestamp == (if SixLittle(m.signature[1..7]) > a.signing.timestamp
                                       then SixLittle(m.signature[1..7]) else a.signing.timestamp)
            && if exists s :: s in was && StreamOf(s, m)
            then |now| == |was|
                 && forall i :: 0 <= i < |was| ==> now[i] == if StreamOf(was[i], m) then mine else was[i]
            else now == was + [mine]
  {
    hide FromLittleEndian, SixLittle, Authentic, Verdict;
    SixOctetsLittle(m.signature[1..7]);
    var was, i := a.streams.value, Find(a.streams.value, m);
    var now := Check(a, m).0.streams.value;
    var mine := Stream(m.sysid, m.compid, m.signature[0], m.signature[1..7]);
    forall j | 0 <= j < |was| && StreamOf(was[j], m) ensures j == i {
      assert SameStream(was[j], m);
      assert i < j ==> SameKey(was[i], was[j]);
    }
    assert i < |was| ==> was[i] in was && StreamOf(was[i], m);
  }

  /** A good signature is six octets of SHA-256 over the octets of SignedOctetsAt, with the receiver's own key. */
  lemma AuthenticExact(key: seq<byte>, m: Msg)
    requires Shaped(m)
    ensures Authentic(key, m)
        <==> forall i :: 0 <= i < 6 ==>
               m.signature[7 + i] == Sha256.Hash48(SignedOctets(key, m, m.ck, m.signature[..7]))[i]
  {
    hide Sha256.Hash48, SignedOctets;
    var h := Sha256.Hash48(SignedOctets(key, m, m.ck, m.signature[..7]));
    if forall i :: 0 <= i < 6 ==> m.signature[7 + i] == h[i] {
      assert m.signature[7..] == h;
    } else {
      assert forall i :: 0 <= i < 6 ==> m.signature[7..][i] == m.signature[7 + i];
    }
  }

  // ----- Frames -----

  /** The extra octet of the checksum is that of the id's entry, or 0 for an id without one. */
  lemma ExtraExact(table: seq<Entry>, msgid: nat)
    ensures (forall e :: e in table ==> e.msgid != msgid) ==> CrcExtra(table, msgid) == 0
    ensures (exists e :: e in table && e.msgid == msgid) ==>
      exists e :: e in table && e.msgid == msgid && CrcExtra(table, msgid) == e.crcExtra
  {
    var e := Lookup(table, msgid);
    if e.Some? {
      assert e.value in table && e.value.msgid == msgid && CrcExtra(table, msgid) == e.value.crcExtra;
    }
  }

  /** A MAVLink 2 frame: ten octets of header, the payload, the checksum, and 13 octets of signature if flagged. */
  lemma FrameOctets(m: Msg)
    requires Shaped(m)
    ensures var f, n := Frame(0xfd, false, m), m.len as int;
            && |f| == 12 + n + (if m.incompat % 2 == 1 then 13 else 0)
            && f[0] == 0xfd && HeaderAt(f, 0, m.(magic := 0xfd))
            && (forall i :: 0 <= i < n ==> f[10 + i] == m.payload[i])
            && f[10 + n] == m.ck[0] && f[11 + n] == m.ck[1]
            && (m.incompat % 2 == 1 ==> forall i :: 0 <= i < 13 ==> f[12 + n + i] == m.signature[i])
  {
    MsgidSplit(m.msgid);
  }

  /** A MAVLink 1 frame: six octets of header, with one octet of the id, the payload, and the checksum. */
  lemma FrameOctetsV1(m: Msg)
    requires Shaped(m)
    ensures var f, n := Frame(0xfe, true, m), m.len as int;
            && |f| == 8 + n + (if m.incompat % 2 == 1 then 13 else 0)
            && f[0] == 0xfe && f[1] == m.len && f[2] == m.seqno && f[3] == m.sysid && f[4] == m.compid
            && f[5] == m.msgid % 256
            && (forall i :: 0 <= i < n ==> f[6 + i] == m.payload[i])
            && f[6 + n] == m.ck[0] && f[7 + n] == m.ck[1]
  {
  }

  /** A frame's checksum is the bit-serial one, from 0xFFFF, of everything behind the start byte and the extra octet. */
  lemma FrameChecksum(table: seq<Entry>, stx: byte, v1: bool, m: Msg)
    requires Shaped(m)
    ensures var f, end := Frame(stx, v1, m), (if v1 then 6 else 10) + m.len;
            end <= |f| && FrameCrc(table, v1, m) == CrcBySerial(0xffff, f[1..end] + [CrcExtra(table, m.msgid)])
  {
    hide Crc, Accumulate, CrcExtra, CrcBySerial, Header;
    var f, end := Frame(stx, v1, m), (if v1 then 6 else 10) + m.len;
    HeaderLengths(m);
    var covered := Covered(v1, m);
    assert f[1..end] == covered;
    CrcSnoc(0xffff, covered, CrcExtra(table, m.msgid));
    CrcIsBitSerial(0xffff, covered + [CrcExtra(table, m.msgid)]);
  }

  // ----- What a sender puts on the wire -----

  /** The octets a payload is trimmed to: no trailing zero among them but the first octet, all behind them zero. */
  predicate TrimmedTo(payload: seq<byte>, length: nat, n: nat)
    requires length <= |payload|
  {
    && n <= length && (length > 0 ==> n > 0) && (n > 1 ==> payload[n - 1] != 0)
    && forall i :: n <= i < length ==> payload[i] == 0
  }

  lemma WireLengthExact(v1: bool, payload: seq<byte>, minLen: byte, length: byte)
    requires |payload| == PAYLOAD_ROOM
    ensures var n := WireLength(v1, payload, minLen, length);
            if v1 then n == minLen else TrimmedTo(payload, length, n)
  {
    TrimDropsZeros(payload, length);
  }

  /** A MAVLink 2 frame of the first n octets of a message's payload, signed or not. */
  ghost predicate OnWire(s: seq<byte>, n: nat, signs: bool, seqno: byte, sysid: byte, compid: byte, m: Msg, extra: byte)
    requires n <= |m.payload|
  {
    && |s| == 12 + n + (if signs then 13 else 0)
    && s[0] == 0xfd && s[1] == n && s[2] == (if signs then 1 else 0) && s[3] == 0
    && s[4] == seqno && s[5] == sysid && s[6] == compid
    && s[7] as int + 0x100 * s[8] as int + 0x1_0000 * s[9] as int == m.msgid
    && (forall i :: 0 <= i < n ==> s[10 + i] == m.payload[i])
    && s[10 + n] as int + 0x100 * s[11 + n] as int == CrcBySerial(0xffff, s[1..10 + n] + [extra]) as int
  }

  /** A MAVLink 1 frame of them, with one octet of the id. */
  ghost predicate OnWireV1(s: seq<byte>, n: nat, seqno: byte, sysid: byte, compid: byte, m: Msg, extra: byte)
    requires n <= |m.payload|
  {
    && |s| == 8 + n && s[0] == 0xfe && s[1] == n && s[2] == seqno && s[3] == sysid && s[4] == compid
    && s[5] == m.msgid % 0x100
    && (forall i :: 0 <= i < n ==> s[6 + i] == m.payload[i])
    && s[6 + n] as int + 0x100 * s[7 + n] as int == CrcBySerial(0xffff, s[1..6 + n] + [extra]) as int
  }

  /** What a MAVLink 2 sender puts on the wire for a message, octet by octet. */
  lemma SentOctets(tx: Tx, m: Msg, sysid: byte, compid: byte, minLen: byte, length: byte, extra: byte)
    requires Shaped(m) && !tx.v1
    ensures var f := Finalized(tx, m, sysid, compid, minLen, length, extra).1;
            && Shaped(f) && TrimmedTo(m.payload, length, f.len)
            && OnWire(SendBuffer(f), f.len, Signs(tx), tx.seqno, sysid, compid, m, extra)
            && (Signs(tx) ==> EndsSigned(SendBuffer(f), tx.signing.value, f))
    ensures Signs(tx) <==> tx.signing.Some? && tx.signing.value.outgoing
  {
    hide Crc, Accumulate, Low, High, Trim, SignatureBlock, CrcBySerial, SendBuffer, Covered, Header, Finalized;
    var f := Finalized(tx, m, sysid, compid, minLen, length, extra).1;
    FinalizedFields(tx, m, sysid, compid, minLen, length, extra);
    SentIsFrame(tx, m, sysid, compid, minLen, length, extra);
    WireLengthExact(false, m.payload, minLen, length);
    FrameOctets(Sent(f));
    CrcOctets(f.checksum);
    var s, n := SendBuffer(f), f.len as int;
    forall i | 0 <= i < n ensures s[10 + i] == m.payload[i] {
      assert f.payload[..n][i] == m.payload[..n][i];
    }
    SentCovers(false, f);
    CoveredIn(0xfd, false, Sent(f));
    CrcSnoc(0xffff, Covered(false, f), extra);
    CrcIsBitSerial(0xffff, Covered(false, f) + [extra]);
    if Signs(tx) {
      assert s[10 + n..12 + n] == [Low(f.checksum), High(f.checksum)] && s[12 + n..] == f.signature;
    }
  }

  /** The last 13 octets are the signature of everything in front of them, checksum included. */
  ghost predicate EndsSigned(s: seq<byte>, signing: Signing, m: Msg)
    requires Shaped(m) && |s| >= 15
  {
    s[|s| - 13..] == SignatureBlock(signing, m, s[|s| - 15..|s| - 13])
  }

  lemma CoveredIn(stx: byte, v1: bool, m: Msg)
    requires Shaped(m)
    ensures var f, end := Frame(stx, v1, m), (if v1 then 6 else 10) + m.len;
            end <= |f| && f[1..end] == Covered(v1, m)
  {
    hide Header;
    HeaderLengths(m);
  }

  lemma SignatureIgnoresBlock(s: Signing, m: Msg, n: Msg, crc: seq<byte>)
    requires Shaped(m) && Shaped(n) && n == m.(signature := n.signature)
    ensures SignatureBlock(s, n, crc) == SignatureBlock(s, m, crc)
  {
    hide Sha256.Hash48, LittleEndian;
  }

  /** The fields of a finalized message, and the checksum it carries. */
  lemma FinalizedFields(tx: Tx, m: Msg, sysid: byte, compid: byte, minLen: byte, length: byte, extra: byte)
    requires Shaped(m)
    ensures var (next, f) := Finalized(tx, m, sysid, compid, minLen, length, extra);
            && Shaped(f) && f.len == WireLength(tx.v1, m.payload, minLen, length)
            && f.payload[..f.len] == m.payload[..f.len]
            && f.magic == (if tx.v1 then 0xfe else 0xfd) && f.sysid == sysid && f.compid == compid
            && f.incompat == (if Signs(tx) then 1 else 0) && f.compat == 0 && f.seqno == tx.seqno
            && f.msgid == m.msgid && f.checksum == Accumulate(extra, Crc(0xffff, Covered(tx.v1, f)))
            && (Signs(tx) ==> f.signature == SignatureBlock(tx.signing.value, f, [Low(f.checksum), High(f.checksum)]))
  {
    hide Accumulate, Crc, Low, High, Trim, SignatureBlock, Covered;
    FinalizedPayload(tx, m, sysid, compid, minLen, length, extra);
    var f := Finalized(tx, m, sysid, compid, minLen, length, extra).1;
    var h := Addressed(tx, m, sysid, compid, minLen, length);
    if Signs(tx) {
      SignatureIgnoresBlock(tx.signing.value, Checksummed(h, f.checksum), f, [Low(f.checksum), High(f.checksum)]);
    }
  }

  /** What a MAVLink 1 sender puts on the wire for a message, octet by octet. */
  lemma SentOctetsV1(tx: Tx, m: Msg, sysid: byte, compid: byte, minLen: byte, length: byte, extra: byte)
    requires Shaped(m) && tx.v1
    ensures var f := Finalized(tx, m, sysid, compid, minLen, length, extra).1;
            Shaped(f) && OnWireV1(SendBuffer(f), minLen, tx.seqno, sysid, compid, m, extra)
  {
    hide Crc, Accumulate, Low, High, Trim, SignatureBlock, CrcBySerial, SendBuffer, Covered, Header, Finalized;
    var f := Finalized(tx, m, sysid, compid, minLen, length, extra).1;
    FinalizedFields(tx, m, sysid, compid, minLen, length, extra);
    SentIsFrame(tx, m, sysid, compid, minLen, length, extra);
    FrameOctetsV1(Sent(f));
    CrcOctets(f.checksum);
    var s, n := SendBuffer(f), minLen as int;
    forall i | 0 <= i < n ensures s[6 + i] == m.payload[i] {
      assert f.payload[..n][i] == m.payload[..n][i];
    }
    SentCovers(true, f);
    CoveredIn(0xfe, true, Sent(f));
    CrcSnoc(0xffff, Covered(true, f), extra);
    CrcIsBitSerial(0xffff, Covered(true, f) + [extra]);
  }

  // ----- What a receiver lets through, and how it goes on -----

  /** A failed check leaves everything but the status alone; which one it is, in the order of the tests. */
  lemma CheckExact(a: Auth, m: Msg)
    requires Shaped(m) && a.Auth?
    ensures var (b, good) := Check(a, m);
            && b.Auth? && good == (b.signing.status == StatusOk)
            && (!good ==> b == a.(signing := a.signing.(status := b.signing.status)))
            && (good ==> b.signing == a.signing.(timestamp := b.signing.timestamp, status := StatusOk))
            && (!Authentic(a.signing.key, m) <==> b.signing.status == BadSignature)
            && (Authentic(a.signing.key, m) && a.streams.None? <==> b.signing.status == NoStreams)
            && (Authentic(a.signing.key, m) && a.streams.Some? ==>
                b.signing.status == Verdict(a.streams.value, a.signing.timestamp, m))
  {
    hide Authentic;
  }

  /** Whatever the id, a link without signing admits it; one with signing, a good signature or an accepted id. */
  lemma AdmitsExact(a: Auth, m: Msg)
    requires Shaped(m)
    ensures Admits(a, m)
        <==> a.Unsigned? || m.msgid in a.signing.accepts || (m.incompat % 2 == 1 && Check(a, m).1)
  {
    hide Authentic, Verdict, Remember;
  }

  /**
   * A frame that fails at its last octet leaves an idle parser, unless that octet is 0xFD: then it is the start
   * byte of the next frame, and that frame is reported exactly when the link admits it.
   */
  lemma FailedFrameResumes(table: seq<Entry>, r: Rx, c: byte, m: Msg)
    requires RxOk(r) && Intact(table, r.v1, m)
    requires var f := FrameChar(table, r, c); !f.received.Incomplete? && !f.received.FramingOk?
    ensures var s := ParseChar(table, r, c);
            && s.received.Incomplete? && s.v1 == r.v1 && (c != 0xfd ==> AtRest(s.state))
            && (c == 0xfd ==>
                (Run(table, s, Body(s.v1, m)).received.FramingOk? <==>
                 Admits(s.auth, Arrived(table, s.v1, s.msg, m))))
  {
    hide Run, Body, Arrived, Admits, Intact, Update, Check, Lookup, CrcExtra, Low, High;
    var s := ParseChar(table, r, c);
    if c == 0xfd {
      BodyFed(table, s, m);
    }
  }
}
