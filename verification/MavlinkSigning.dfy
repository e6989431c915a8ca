/** MAVLink 2 packet signing: mavlink_sign_packet, mavlink_signature_check and the table of streams. */
module MavlinkSigning {
  import opened Bytes
  import opened Mavlink
  import Sha256

  const MAX_SIGNING_STREAMS := 16
  const ONE_MINUTE := 6000 * 1000   // in the 10-microsecond units of the signing timestamp
  const TWO_TO_48 := 0x1_0000_0000_0000

  // ----- Six-octet little-endian timestamps -----

  lemma SixOctets()
    ensures Pow256(6) == TWO_TO_48
  {
    assert Pow256(2) == 0x1_0000 && Pow256(4) == 0x1_0000_0000;
  }

  lemma TimestampRoundTrip(t: nat)
    requires t < TWO_TO_48
    ensures FromLittleEndian(LittleEndian(t, 6)) == t
  {
    SixOctets();
    LittleEndianRoundTrip(t, 6);
  }

  // ----- What signer and receiver agree on -----

  datatype Status = NoStatus | StatusOk | BadSignature | NoStreams | TooManyStreams | OldTimestamp | Replay

  datatype Stream = Stream(sysid: byte, compid: byte, link: byte, stamp: seq<byte>)

  /** The signing state of a link; `accepts` is the set of ids its accept_unsigned_callback lets through. */
  datatype Signing = Signing(outgoing: bool, linkId: byte, timestamp: uint64, key: seq<byte>, accepts: set<nat>,
      status: Status)

  /** The signing and signing_streams pointers of a channel, and what they point at. */
  datatype Auth = Unsigned | Auth(signing: Signing, streams: Option<seq<Stream>>)

  /** The ten octets of the message struct from `magic` on, which the receiver hashes. */
  function SignedHeader(m: Msg): seq<byte> {
    [m.magic] + Header(false, m)
  }

  /** The octet string under a signature, ending in the link id and the timestamp. */
  function SignedOctets(key: seq<byte>, m: Msg, crc: seq<byte>, idAndStamp: seq<byte>): seq<byte>
    requires Shaped(m)
  {
    key + SignedHeader(m) + m.payload[..m.len] + crc + idAndStamp
  }

  function SignatureBlock(signing: Signing, m: Msg, crc: seq<byte>): (b: seq<byte>)
    requires Shaped(m)
    ensures |b| == SIGNATURE_BLOCK_LEN
  {
    var idAndStamp := [signing.linkId] + LittleEndian(signing.timestamp, 6);
    idAndStamp + Sha256.Hash48(SignedOctets(signing.key, m, crc, idAndStamp))
  }

  function Tick(signing: Signing): Signing {
    signing.(timestamp := (signing.timestamp + 1) % 0x1_0000_0000_0000_0000)
  }

  function Link(m: Msg): byte
    requires Shaped(m)
  {
    m.signature[0]
  }

  function Stamp(m: Msg): (t: nat)
    requires Shaped(m)
    ensures t < TWO_TO_48
  {
    SixOctets();
    FromLittleEndian(m.signature[1..7])
  }

  ghost predicate Authentic(key: seq<byte>, m: Msg)
    requires Shaped(m)
  {
    m.signature[7..] == Sha256.Hash48(SignedOctets(key, m, m.ck, m.signature[..7]))
  }

  // ----- Checking a signature -----

  predicate SameStream(s: Stream, m: Msg)
    requires Shaped(m)
  {
    s.sysid == m.sysid && s.compid == m.compid && s.link == Link(m)
  }

  /** The index of the message's stream, or the length of the table. */
  function Find(streams: seq<Stream>, m: Msg): (i: nat)
    requires Shaped(m)
    ensures i <= |streams|
    ensures i < |streams| ==> SameStream(streams[i], m)
    ensures forall j :: 0 <= j < i ==> !SameStream(streams[j], m)
  {
    if streams == [] || SameStream(streams[0], m) then 0 else 1 + Find(streams[1..], m)
  }

  /** The verdict on an authentic message, given the stream table and our own clock. */
  function Verdict(streams: seq<Stream>, clock: nat, m: Msg): Status
    requires Shaped(m)
  {
    var i := Find(streams, m);
    if i == |streams| then
      if |streams| >= MAX_SIGNING_STREAMS then TooManyStreams
      else if Stamp(m) + ONE_MINUTE < clock then OldTimestamp
      else StatusOk
    else if Stamp(m) <= FromLittleEndian(streams[i].stamp) then Replay
    else StatusOk
  }

  /** The table after an accepted message. */
  function Remember(streams: seq<Stream>, m: Msg): seq<Stream>
    requires Shaped(m)
  {
    var i, s := Find(streams, m), Stream(m.sysid, m.compid, Link(m), m.signature[1..7]);
    if i == |streams| then streams + [s] else streams[i := s]
  }

  ghost function StatusOf(a: Auth, m: Msg): Status
    requires Shaped(m) && a.Auth?
  {
    if !Authentic(a.signing.key, m) then BadSignature
    else if a.streams.None? then NoStreams
    else Verdict(a.streams.value, a.signing.timestamp, m)
  }

  /** mavlink_signature_check: the new state and whether the signature is good. */
  ghost function Check(a: Auth, m: Msg): (Auth, bool)
    requires Shaped(m)
  {
    if a.Unsigned? then (a, true)
    else
      var status := StatusOf(a, m);
      var stamped := a.signing.(status := status);
      if status != StatusOk then (a.(signing := stamped), false)
      else (Auth(stamped.(timestamp := if Stamp(m) > stamped.timestamp then Stamp(m) else stamped.timestamp),
                 Some(Remember(a.streams.value, m))), true)
  }

  // ----- Checks over any interleaving of senders -----

  ghost predicate AllShaped(ms: seq<Msg>) {
    forall i :: 0 <= i < |ms| ==> Shaped(ms[i])
  }

  ghost function After(a: Auth, ms: seq<Msg>): Auth
    requires AllShaped(ms)
    decreases |ms|
  {
    if ms == [] then a else After(Check(a, ms[0]).0, ms[1..])
  }

  ghost function Verdicts(a: Auth, ms: seq<Msg>): (v: seq<bool>)
    requires AllShaped(ms)
    ensures |v| == |ms|
    decreases |ms|
  {
    if ms == [] then [] else [Check(a, ms[0]).1] + Verdicts(Check(a, ms[0]).0, ms[1..])
  }

  ghost predicate SameKey(s: Stream, t: Stream) {
    s.sysid == t.sysid && s.compid == t.compid && s.link == t.link
  }

  /** At most 16 streams, no two of them for the same (sysid, compid, link_id). */
  ghost predicate TableOk(a: Auth) {
    a.Auth? && a.streams.Some? ==>
      var t := a.streams.value;
      |t| <= MAX_SIGNING_STREAMS && forall i, j :: 0 <= i < j < |t| ==> !SameKey(t[i], t[j])
  }

  /** The table knows the stream of `m`, with a timestamp of at least t. */
  ghost predicate Known(a: Auth, m: Msg, t: nat)
    requires Shaped(m)
  {
    && a.Auth? && a.streams.Some?
    && var i := Find(a.streams.value, m);
       i < |a.streams.value| && FromLittleEndian(a.streams.value[i].stamp) >= t
  }

  lemma FindAfterUpdate(streams: seq<Stream>, m: Msg, i: nat, s: Stream)
    requires Shaped(m) && i < |streams| && SameKey(streams[i], s)
    ensures Find(streams[i := s], m) == Find(streams, m)
  {
    var p, q := Find(streams[i := s], m), Find(streams, m);
    if p < |streams| {
      assert SameStream(streams[p], m);
    }
    if q < |streams| {
      assert SameStream(streams[i := s][q], m);
    }
  }

  lemma {:induction false} FindAfterAppend(streams: seq<Stream>, m: Msg, s: Stream)
    requires Shaped(m)
    ensures Find(streams, m) < |streams| ==> Find(streams + [s], m) == Find(streams, m)
    ensures Find(streams, m) == |streams| && SameStream(s, m) ==> Find(streams + [s], m) == |streams|
  {
    var i := Find(streams + [s], m);
    if i < |streams| {
      assert (streams + [s])[i] == streams[i];
    }
    var j := Find(streams, m);
    if j < |streams| {
      assert (streams + [s])[j] == streams[j];
    } else if SameStream(s, m) {
      assert (streams + [s])[|streams|] == s;
    }
  }

  /** One step keeps the table sound. */
  lemma CheckKeepsTable(a: Auth, m: Msg)
    requires Shaped(m) && TableOk(a)
    ensures TableOk(Check(a, m).0) && Check(a, m).0.Auth? == a.Auth?
  {
    hide Authentic, FromLittleEndian;
  }

  /** One step forgets no stream, and knows the one it accepted. */
  lemma CheckKeepsKnown(a: Auth, m: Msg, other: Msg, t: nat)
    requires Shaped(m) && Shaped(other)
    ensures Known(a, other, t) ==> Known(Check(a, m).0, other, t)
    ensures Check(a, m).1 && a.Auth? ==> Known(Check(a, m).0, m, Stamp(m))
  {
    hide Authentic, FromLittleEndian;
    if Check(a, m).1 && a.Auth? {
      var streams, i := a.streams.value, Find(a.streams.value, m);
      var s := Stream(m.sysid, m.compid, Link(m), m.signature[1..7]);
      FindAfterAppend(streams, m, s);
      FindAfterAppend(streams, other, s);
      if i < |streams| {
        FindAfterUpdate(streams, m, i, s);
        FindAfterUpdate(streams, other, i, s);
      }
    }
  }

  /** One step never turns the clock back. */
  lemma CheckKeepsClock(a: Auth, m: Msg)
    requires Shaped(m) && a.Auth?
    ensures Check(a, m).0.Auth? && Check(a, m).0.signing.timestamp >= a.signing.timestamp
    ensures Check(a, m).1 ==> Check(a, m).0.signing.timestamp >= Stamp(m)
  {
    hide Authentic, Verdict, Stamp;
  }

  lemma {:induction false} LaterIsNewer(a: Auth, ms: seq<Msg>, j: nat, t: nat)
    requires AllShaped(ms) && j < |ms| && TableOk(a) && Known(a, ms[j], t)
    ensures Verdicts(a, ms)[j] ==> Stamp(ms[j]) > t
    decreases |ms|
  {
    hide Authentic, Stamp;
    var next := Check(a, ms[0]).0;
    if j > 0 {
      CheckKeepsTable(a, ms[0]);
      CheckKeepsKnown(a, ms[0], ms[j], t);
      LaterIsNewer(next, ms[1..], j - 1, t);
    }
  }

  /**
   * Replay safety. Over any interleaving of packets from any senders, the timestamps accepted for one
   * (sysid, compid, link_id) strictly increase.
   */
  lemma {:induction false} AcceptedStampsIncrease(a: Auth, ms: seq<Msg>, i: nat, j: nat)
    requires AllShaped(ms) && a.Auth? && TableOk(a) && i < j < |ms|
    requires Verdicts(a, ms)[i] && Verdicts(a, ms)[j]
    requires ms[i].sysid == ms[j].sysid && ms[i].compid == ms[j].compid && Link(ms[i]) == Link(ms[j])
    ensures Stamp(ms[i]) < Stamp(ms[j])
    decreases |ms|
  {
    hide Authentic, Stamp;
    CheckKeepsTable(a, ms[0]);
    CheckKeepsKnown(a, ms[0], ms[i], 0);
    if i > 0 {
      AcceptedStampsIncrease(Check(a, ms[0]).0, ms[1..], i - 1, j - 1);
    } else {
      LaterIsNewer(Check(a, ms[0]).0, ms[1..], j - 1, Stamp(ms[0]));
    }
  }

  /** The table stays sound and the clock never runs backwards, ending at or after every accepted timestamp. */
  lemma {:induction false} RunKeepsTableAndClock(a: Auth, ms: seq<Msg>)
    requires AllShaped(ms) && a.Auth? && TableOk(a)
    ensures After(a, ms).Auth? && TableOk(After(a, ms))
    ensures After(a, ms).signing.timestamp >= a.signing.timestamp
    ensures forall i :: 0 <= i < |ms| && Verdicts(a, ms)[i] ==> After(a, ms).signing.timestamp >= Stamp(ms[i])
    decreases |ms|
  {
    hide Authentic, Stamp;
    if ms != [] {
      CheckKeepsTable(a, ms[0]);
      CheckKeepsClock(a, ms[0]);
      RunKeepsTableAndClock(Check(a, ms[0]).0, ms[1..]);
    }
  }

  // ----- A signer and a receiver with the same key -----

  /** Signer and receiver hash the same octets, and the receiver reads back the signer's stamp. */
  lemma SignedIsAuthentic(s: Signing, m: Msg)
    requires Shaped(m) && s.timestamp < TWO_TO_48 && m.signature == SignatureBlock(s, m, m.ck)
    ensures Authentic(s.key, m) && Stamp(m) == s.timestamp && Link(m) == s.linkId
  {
    hide Sha256.Hash48, SignedOctets, LittleEndian, FromLittleEndian;
    var idAndStamp := [s.linkId] + LittleEndian(s.timestamp, 6);
    assert m.signature[..7] == idAndStamp;
    assert m.signature[1..7] == LittleEndian(s.timestamp, 6);
    TimestampRoundTrip(s.timestamp);
  }

  /** One sender's messages, signed one tick after the other. */
  ghost predicate SignedRun(s: Signing, ms: seq<Msg>)
    decreases |ms|
  {
    ms == [] || (Shaped(ms[0]) && ms[0].signature == SignatureBlock(s, ms[0], ms[0].ck) && SignedRun(Tick(s), ms[1..]))
  }

  ghost predicate OneSender(ms: seq<Msg>) {
    forall i :: 0 <= i < |ms| ==> Shaped(ms[i]) && ms[i].sysid == ms[0].sysid && ms[i].compid == ms[0].compid
  }

  /** What the receiver asks of a sender's first stamp: newer than a known stream, or room and at most a minute old. */
  ghost predicate Welcome(a: Auth, first: Msg, stamp: nat)
    requires Shaped(first) && a.Auth? && a.streams.Some?
  {
    var i := Find(a.streams.value, first);
    if i < |a.streams.value| then FromLittleEndian(a.streams.value[i].stamp) < stamp
    else |a.streams.value| < MAX_SIGNING_STREAMS && stamp + ONE_MINUTE >= a.signing.timestamp
  }

  lemma WelcomeIsAccepted(a: Auth, s: Signing, m: Msg)
    requires Shaped(m) && m.signature == SignatureBlock(s, m, m.ck) && s.timestamp < TWO_TO_48
    requires a.Auth? && a.signing.key == s.key && a.streams.Some? && TableOk(a)
    ensures Check(a, m).1 <==> Welcome(a, m, s.timestamp)
  {
    hide Authentic, Stamp, FromLittleEndian, SignatureBlock;
    SignedIsAuthentic(s, m);
  }

  lemma NextIsWelcome(a: Auth, s: Signing, m: Msg, next: Msg)
    requires Shaped(m) && m.signature == SignatureBlock(s, m, m.ck) && s.timestamp + 1 < TWO_TO_48
    requires Shaped(next) && next.signature == SignatureBlock(Tick(s), next, next.ck)
    requires next.sysid == m.sysid && next.compid == m.compid
    requires a.Auth? && a.signing.key == s.key && a.streams.Some? && TableOk(a) && Check(a, m).1
    ensures var b := Check(a, m).0;
            b.Auth? && b.signing.key == s.key && b.streams.Some? && TableOk(b) && Welcome(b, next, Tick(s).timestamp)
  {
    hide Authentic, Stamp, FromLittleEndian, SignatureBlock;
    SignedIsAuthentic(s, m);
    SignedIsAuthentic(Tick(s), next);
    CheckKeepsTable(a, m);
    StampKnown(a, m, next);
  }

  ghost predicate All(v: seq<bool>) {
    v == [] || (v[0] && All(v[1..]))
  }

  lemma AllOfCons(b: bool, v: seq<bool>)
    ensures All([b] + v) <==> b && All(v)
  {
    assert ([b] + v)[1..] == v;
  }

  /** With equal keys the whole run is accepted exactly when its first stamp is welcome. */
  lemma {:induction false} SignedRunAccepted(a: Auth, s: Signing, ms: seq<Msg>)
    requires AllShaped(ms) && SignedRun(s, ms) && OneSender(ms) && ms != [] && s.timestamp + |ms| <= TWO_TO_48
    requires a.Auth? && a.signing.key == s.key && a.streams.Some? && TableOk(a)
    ensures All(Verdicts(a, ms)) <==> Welcome(a, ms[0], s.timestamp)
    decreases |ms|
  {
    hide Check, Welcome, SignatureBlock, TableOk;
    var next, rest := Check(a, ms[0]).0, ms[1..];
    WelcomeIsAccepted(a, s, ms[0]);
    assert Verdicts(a, ms) == [Check(a, ms[0]).1] + Verdicts(next, rest);
    AllOfCons(Check(a, ms[0]).1, Verdicts(next, rest));
    if Welcome(a, ms[0], s.timestamp) && rest != [] {
      NextIsWelcome(a, s, ms[0], rest[0]);
      SignedRunAccepted(next, Tick(s), rest);
    }
  }

  lemma StampKnown(a: Auth, m: Msg, other: Msg)
    requires Shaped(m) && Shaped(other) && a.Auth? && a.streams.Some? && Check(a, m).1
    requires m.sysid == other.sysid && m.compid == other.compid && Link(m) == Link(other)
    ensures var t := Check(a, m).0.streams;
            && t.Some? && Find(t.value, other) < |t.value|
            && FromLittleEndian(t.value[Find(t.value, other)].stamp) == Stamp(m)
  {
    hide Authentic;
    var s := Stream(m.sysid, m.compid, Link(m), m.signature[1..7]);
    FindAfterAppend(a.streams.value, other, s);
    var i := Find(a.streams.value, m);
    SameFind(a.streams.value, m, other);
    if i < |a.streams.value| {
      FindAfterUpdate(a.streams.value, other, i, s);
    }
  }

  lemma {:induction false} SameFind(streams: seq<Stream>, m: Msg, other: Msg)
    requires Shaped(m) && Shaped(other)
    requires m.sysid == other.sysid && m.compid == other.compid && Link(m) == Link(other)
    ensures Find(streams, m) == Find(streams, other)
  {
    if streams != [] {
      SameFind(streams[1..], m, other);
    }
  }

  // ----- The source's structs and functions -----

  class SigningState {
    var outgoing: bool
    var linkId: byte
    var timestamp: uint64
    const key: seq<byte>
    const accepts: set<nat>
    var status: Status

    constructor (key: seq<byte>, accepts: set<nat>, outgoing: bool, linkId: byte, timestamp: uint64)
      ensures Value() == Signing(outgoing, linkId, timestamp, key, accepts, NoStatus)
    {
      this.key, this.accepts, this.outgoing, this.linkId := key, accepts, outgoing, linkId;
      this.timestamp, status := timestamp, NoStatus;
    }

    ghost function Value(): Signing
      reads this
    {
      Signing(outgoing, linkId, timestamp, key, accepts, status)
    }

    /** mavlink_sign_packet: the block is written, and the clock ticks, only when signing is on. */
    method SignPacket(m: Message, crc: seq<byte>) returns (length: nat)
      requires m.Valid() && |key| == 32 && |crc| == 2
      modifies this`timestamp, m.signature
      ensures !outgoing ==> length == 0 && Value() == old(Value()) && m.Value() == old(m.Value())
      ensures outgoing ==>
        && length == SIGNATURE_BLOCK_LEN && Value() == Tick(old(Value()))
        && m.Value() == old(m.Value()).(signature := SignatureBlock(old(Value()), old(m.Value()), crc))
    {
      hide Sha256.Hash48;
      if !outgoing {
        return 0;
      }
      ghost var before := m.Value();
      var idAndStamp := [linkId] + LittleEndian(timestamp, 6);
      var hash := HashSigned(key, m, crc, idAndStamp);
      timestamp := (timestamp + 1) % 0x1_0000_0000_0000_0000;
      forall i | 0 <= i < SIGNATURE_BLOCK_LEN {
        m.signature[i] := if i < 7 then idAndStamp[i] else hash[i - 7];
      }
      assert m.signature[..] == idAndStamp + hash;
      return SIGNATURE_BLOCK_LEN;
    }
  }

  class SigningStreams {
    var count: nat
    const stream: array<Stream>

    constructor ()
      ensures Valid() && Value() == [] && fresh(stream)
    {
      count := 0;
      stream := new Stream[MAX_SIGNING_STREAMS](_ => Stream(0, 0, 0, [0, 0, 0, 0, 0, 0]));
    }

    ghost predicate Valid()
      reads this
    {
      stream.Length == MAX_SIGNING_STREAMS && count <= MAX_SIGNING_STREAMS
    }

    ghost function Value(): seq<Stream>
      requires Valid()
      reads this, stream
    {
      stream[..count]
    }

    /** The loop that looks for the message's stream. */
    method FindStream(m: Message) returns (i: nat)
      requires Valid() && m.Valid()
      ensures i == Find(Value(), m.Value())
    {
      i := 0;
      while i < count && !(m.sysid == stream[i].sysid && m.compid == stream[i].compid
          && m.signature[0] == stream[i].link)
        invariant i <= count && forall j :: 0 <= j < i ==> !SameStream(stream[j], m.Value())
      {
        i := i + 1;
      }
      var k := Find(Value(), m.Value());
      assert k < count ==> SameStream(Value()[k], m.Value());
      assert i < count ==> SameStream(Value()[i], m.Value());
    }

    /** The timestamp half of mavlink_signature_check. */
    method Admit(signing: SigningState, m: Message) returns (ok: bool)
      requires Valid() && m.Valid()
      modifies signing`status, signing`timestamp, this`count, stream
      ensures Valid()
      ensures signing.status == Verdict(old(Value()), old(signing.timestamp), m.Value())
      ensures ok == (signing.status == StatusOk)
      ensures Value() == if ok then Remember(old(Value()), m.Value()) else old(Value())
      ensures signing.timestamp == if ok && Stamp(m.Value()) > old(signing.timestamp)
          then Stamp(m.Value()) else old(signing.timestamp)
    {
      hide FromLittleEndian;
      ghost var before := Value();
      var stampOctets, link := m.signature[1..7], m.signature[0];
      assert stampOctets == m.Value().signature[1..7];
      var stamp := FromLittleEndian(stampOctets);
      assert stamp == Stamp(m.Value());
      var i := FindStream(m);
      if i == count {
        if count >= MAX_SIGNING_STREAMS {
          signing.status := TooManyStreams;
          return false;
        }
        if stamp + ONE_MINUTE < signing.timestamp {
          signing.status := OldTimestamp;
          return false;
        }
        count := count + 1;
      } else if stamp <= FromLittleEndian(stream[i].stamp) {
        signing.status := Replay;
        return false;
      }
      stream[i] := Stream(m.sysid, m.compid, link, stampOctets);
      if stamp > signing.timestamp {
        signing.timestamp := stamp;
      }
      signing.status := StatusOk;
      ok := true;
      assert Value() == Remember(before, m.Value());
    }
  }

  /** The octets both sides hash: key, header, payload, checksum, link id and timestamp. */
  method HashSigned(key: seq<byte>, m: Message, crc: seq<byte>, idAndStamp: seq<byte>) returns (hash: seq<byte>)
    requires m.Valid() && |key| == 32 && |crc| == 2 && |idAndStamp| == 7
    ensures hash == Sha256.Hash48(SignedOctets(key, m.Value(), crc, idAndStamp))
  {
    hide Sha256.Hash48;
    var id0: byte, id1: byte, id2: byte := m.msgid % 0x100, m.msgid / 0x100 % 0x100, m.msgid / 0x1_0000 % 0x100;
    var header := [m.magic, m.len, m.incompat, m.compat, m.seqno, m.sysid, m.compid, id0, id1, id2];
    assert header == SignedHeader(m.Value());
    assert m.payload[..m.len] == m.payload[..][..m.len];
    Sha256.ConcatFive(key, header, m.payload[..m.len], crc, idAndStamp);
    hash := Sha256.HashPieces([key, header, m.payload[..m.len], crc, idAndStamp]);
  }

  ghost function AuthOf(signing: SigningState?, streams: SigningStreams?): Auth
    requires streams != null ==> streams.Valid()
    reads signing, streams, if streams == null then {} else {streams.stream}
  {
    if signing == null then Unsigned
    else Auth(signing.Value(), if streams == null then None else Some(streams.Value()))
  }

  /** mavlink_signature_check over the shared stream table. */
  method SignatureCheck(signing: SigningState?, streams: SigningStreams?, m: Message) returns (ok: bool)
    requires m.Valid() && (signing != null ==> |signing.key| == 32) && (streams != null ==> streams.Valid())
    modifies signing, streams, if streams == null then {} else {streams.stream}
    ensures streams != null ==> streams.Valid()
    ensures (AuthOf(signing, streams), ok) == Check(old(AuthOf(signing, streams)), old(m.Value()))
    ensures signing == null ==> ok
  {
    hide Sha256.Hash48, SignedOctets, FromLittleEndian;
    if signing == null {
      return true;
    }
    var psig := m.signature[..];
    var signature := HashSigned(signing.key, m, m.ck[..], psig[..7]);
    if signature != psig[7..] {
      signing.status := BadSignature;
      return false;
    }
    if streams == null {
      signing.status := NoStreams;
      return false;
    }
    ok := streams.Admit(signing, m);
  }
}
