/** Replay safety on byte streams: whatever bytes arrive, what is reported with a good signature is new. */
module MavlinkReplay {
  import opened Bytes
  import opened Mavlink
  import opened MavlinkSigning
  import opened MavlinkParser
  import opened MavlinkLink

  // ----- One byte -----

  /** The next byte is the last of a signature. */
  predicate AtLastOctet(r: Rx) {
    r.state.SignatureWait? && r.wait == 1
  }

  /** The message whose signature that byte completes. */
  function Signed(r: Rx, c: byte): (m: Msg)
    requires RxOk(r)
    ensures Shaped(m)
  {
    r.msg.(signature := r.msg.signature[SIGNATURE_BLOCK_LEN - 1 := c])
  }

  /** The signing state changes at the last octet of a signature only, and there it takes the step of Check. */
  lemma AuthStep(table: seq<Entry>, r: Rx, c: byte)
    requires RxOk(r)
    ensures ParseChar(table, r, c).auth == if AtLastOctet(r) then Check(r.auth, Signed(r, c)).0 else r.auth
  {
    hide Check, Update, Lookup, CrcExtra, Low, High, RejectsUnsigned;
  }

  /** What is reported with a good signature, and why anything else is reported. */
  lemma ReportStep(table: seq<Entry>, r: Rx, c: byte)
    requires RxOk(r)
    ensures var s := ParseChar(table, r, c);
            && (AtLastOctet(r) && Check(r.auth, Signed(r, c)).1 ==> s.received.FramingOk? && s.msg == Signed(r, c))
            && (s.received.FramingOk? && RejectsUnsigned(s.auth, s.msg.msgid) ==>
                  AtLastOctet(r) && Check(r.auth, Signed(r, c)).1)
  {
    hide Check, Update, Lookup, CrcExtra, Low, High;
    AuthStep(table, r, c);
  }

  /** A check leaves the ids that may come unsigned as they are. */
  lemma CheckKeepsAccepts(a: Auth, m: Msg, msgid: nat)
    requires Shaped(m)
    ensures RejectsUnsigned(Check(a, m).0, msgid) == RejectsUnsigned(a, msgid) && Check(a, m).0.Auth? == a.Auth?
  {
    hide StatusOf, Remember, Stamp;
  }

  // ----- Streams of bytes -----

  /** Byte `k` of the stream completes a signature that is found good. */
  ghost predicate AcceptedAt(table: seq<Entry>, r: Rx, bs: seq<byte>, k: nat)
    requires RxOk(r)
  {
    && k < |bs|
    && var q := Run(table, r, bs[..k]);
       AtLastOctet(q) && Check(q.auth, Signed(q, bs[k])).1
  }

  ghost function AcceptedMessage(table: seq<Entry>, r: Rx, bs: seq<byte>, k: nat): (m: Msg)
    requires RxOk(r) && k < |bs|
    ensures Shaped(m)
  {
    Signed(Run(table, r, bs[..k]), bs[k])
  }

  lemma RunNext(table: seq<Entry>, r: Rx, bs: seq<byte>, k: nat)
    requires RxOk(r) && k < |bs|
    ensures Run(table, r, bs[..k + 1]) == ParseChar(table, Run(table, r, bs[..k]), bs[k])
  {
    hide ParseChar;
    assert bs[..k + 1][..k] == bs[..k];
  }

  lemma {:induction false} ReportAt(table: seq<Entry>, r: Rx, bs: seq<byte>, k: nat)
    requires RxOk(r) && k < |bs|
    ensures var s := Run(table, r, bs[..k + 1]);
            Reports(table, r, bs)[k] == if s.received.FramingOk? then Some(s.msg) else None
    decreases |bs|
  {
    hide Run;
    if k == |bs| - 1 {
      assert bs[..k + 1] == bs;
    } else {
      var front := bs[..|bs| - 1];
      ReportAt(table, r, front, k);
      assert front[..k + 1] == bs[..k + 1];
    }
  }

  /** Over any bytes the table of streams stays sound, the clock never runs back, and the accepted ids stay. */
  lemma {:induction false} StreamKeepsTable(table: seq<Entry>, r: Rx, bs: seq<byte>, msgid: nat)
    requires RxOk(r) && r.auth.Auth? && TableOk(r.auth)
    ensures var a := Run(table, r, bs).auth;
            && a.Auth? && TableOk(a) && a.signing.timestamp >= r.auth.signing.timestamp
            && RejectsUnsigned(a, msgid) == RejectsUnsigned(r.auth, msgid)
    decreases |bs|
  {
    hide ParseChar, Check, TableOk, RejectsUnsigned, Signed;
    if bs != [] {
      var front, c := bs[..|bs| - 1], bs[|bs| - 1];
      StreamKeepsTable(table, r, front, msgid);
      var q := Run(table, r, front);
      AuthStep(table, q, c);
      CheckKeepsTable(q.auth, Signed(q, c));
      CheckKeepsClock(q.auth, Signed(q, c));
      CheckKeepsAccepts(q.auth, Signed(q, c), msgid);
    }
  }

  /** Over any bytes no stream is forgotten or put back in time. */
  lemma {:induction false} StreamKeepsKnown(table: seq<Entry>, r: Rx, bs: seq<byte>, m: Msg, t: nat)
    requires RxOk(r) && Shaped(m) && Known(r.auth, m, t)
    ensures Known(Run(table, r, bs).auth, m, t)
    decreases |bs|
  {
    hide ParseChar, Check, Known, Signed;
    if bs != [] {
      var front, c := bs[..|bs| - 1], bs[|bs| - 1];
      StreamKeepsKnown(table, r, front, m, t);
      var q := Run(table, r, front);
      AuthStep(table, q, c);
      CheckKeepsKnown(q.auth, Signed(q, c), m, t);
    }
  }

  ghost predicate SameSender(m: Msg, n: Msg)
    requires Shaped(m) && Shaped(n)
  {
    m.sysid == n.sysid && m.compid == n.compid && Link(m) == Link(n)
  }

  lemma KnownBySender(a: Auth, m: Msg, n: Msg, t: nat)
    requires Shaped(m) && Shaped(n) && SameSender(m, n) && Known(a, m, t)
    ensures Known(a, n, t)
  {
    hide FromLittleEndian;
    var s := a.streams.value;
    var i, j := Find(s, m), Find(s, n);
    assert SameStream(s[i], n);
    assert j < |s| ==> SameStream(s[j], m);
  }

  lemma AcceptedIsNewer(a: Auth, m: Msg, t: nat)
    requires Shaped(m) && Known(a, m, t) && Check(a, m).1
    ensures Stamp(m) > t
  {
    hide Authentic, Stamp, FromLittleEndian;
  }

  /** Signatures found good at two places of a byte stream, for one sender: the later stamp is the greater. */
  lemma AcceptedInOrder(table: seq<Entry>, r: Rx, bs: seq<byte>, i: nat, j: nat)
    requires RxOk(r) && r.auth.Auth? && i < j
    requires AcceptedAt(table, r, bs, i) && AcceptedAt(table, r, bs, j)
    requires SameSender(AcceptedMessage(table, r, bs, i), AcceptedMessage(table, r, bs, j))
    ensures Stamp(AcceptedMessage(table, r, bs, i)) < Stamp(AcceptedMessage(table, r, bs, j))
  {
    hide ParseChar, Check, Known, Signed, Stamp, SameSender, Run;
    var m, n := AcceptedMessage(table, r, bs, i), AcceptedMessage(table, r, bs, j);
    var q, mid := Run(table, r, bs[..i]), Run(table, r, bs[..i + 1]);
    StreamIsAuth(table, r, bs[..i]);
    CheckKeepsKnown(q.auth, m, m, 0);
    RunNext(table, r, bs, i);
    AuthStep(table, q, bs[i]);
    StreamKeepsKnown(table, mid, bs[i + 1..j], m, Stamp(m));
    RunAppend(table, r, bs[..i + 1], bs[i + 1..j]);
    assert bs[..i + 1] + bs[i + 1..j] == bs[..j];
    KnownBySender(Run(table, r, bs[..j]).auth, m, n, Stamp(m));
    AcceptedIsNewer(Run(table, r, bs[..j]).auth, n, Stamp(m));
  }

  lemma {:induction false} StreamIsAuth(table: seq<Entry>, r: Rx, bs: seq<byte>)
    requires RxOk(r) && r.auth.Auth?
    ensures Run(table, r, bs).auth.Auth?
    decreases |bs|
  {
    hide ParseChar, Check, Signed, RejectsUnsigned;
    if bs != [] {
      var front, c := bs[..|bs| - 1], bs[|bs| - 1];
      StreamIsAuth(table, r, front);
      AuthStep(table, Run(table, r, front), c);
      CheckKeepsAccepts(Run(table, r, front).auth, Signed(Run(table, r, front), c), 0);
    }
  }

  /** On a signing link, a message whose id may not come unsigned is reported exactly at a good signature. */
  lemma ReportedWasAccepted(table: seq<Entry>, r: Rx, bs: seq<byte>, k: nat)
    requires RxOk(r) && r.auth.Auth? && TableOk(r.auth) && k < |bs|
    ensures var o := Reports(table, r, bs)[k];
            && (AcceptedAt(table, r, bs, k) ==> o == Some(AcceptedMessage(table, r, bs, k)))
            && (o.Some? && RejectsUnsigned(r.auth, o.value.msgid) ==> AcceptedAt(table, r, bs, k))
  {
    hide ParseChar, Check, Run, TableOk, RejectsUnsigned, Signed;
    ReportAt(table, r, bs, k);
    RunNext(table, r, bs, k);
    var q := Run(table, r, bs[..k]);
    ReportStep(table, q, bs[k]);
    StreamKeepsTable(table, r, bs[..k + 1], Run(table, r, bs[..k + 1]).msg.msgid);
  }

  /**
   * Replay safety on bytes. Whatever bytes arrive on a signing link, from whomever: of two messages reported
   * for one sender, with ids that may not come unsigned, the later has the greater timestamp. Nothing that was
   * reported once is reported again.
   */
  lemma ReportsNeverReplay(table: seq<Entry>, r: Rx, bs: seq<byte>, i: nat, j: nat)
    requires RxOk(r) && r.auth.Auth? && TableOk(r.auth) && i < j < |bs|
    ensures var a, b := Reports(table, r, bs)[i], Reports(table, r, bs)[j];
            a.Some? && b.Some? && RejectsUnsigned(r.auth, a.value.msgid) && RejectsUnsigned(r.auth, b.value.msgid) ==>
              && Shaped(a.value) && Shaped(b.value)
              && (SameSender(a.value, b.value) ==> Stamp(a.value) < Stamp(b.value))
              && a.value != b.value
  {
    hide *;
    var a, b := Reports(table, r, bs)[i], Reports(table, r, bs)[j];
    if a.Some? && b.Some? && RejectsUnsigned(r.auth, a.value.msgid) && RejectsUnsigned(r.auth, b.value.msgid) {
      ReportedWasAccepted(table, r, bs, i);
      ReportedWasAccepted(table, r, bs, j);
      if SameSender(a.value, b.value) {
        AcceptedInOrder(table, r, bs, i, j);
      }
      SenderOfItself(a.value);
    }
  }

  lemma SenderOfItself(m: Msg)
    requires Shaped(m)
    ensures SameSender(m, m)
  {
  }

  // ----- The same frame again -----

  /** The channel's message after a frame, with what the link will be asked about it. */
  function Landed(table: seq<Entry>, r: Rx, v1: bool, m: Msg): (d: Msg)
    requires RxOk(r) && Shaped(m)
    ensures Shaped(d)
  {
    Arrived(table, v1, Begun(r, v1).msg, m)
  }

  lemma LandedCarries(table: seq<Entry>, r: Rx, v1: bool, m: Msg)
    requires RxOk(r) && Shaped(m) && IsSigned(m)
    ensures var d := Landed(table, r, v1, m);
            IsSigned(d) && d.msgid == m.msgid && SameSender(d, m) && Stamp(d) == Stamp(m)
  {
    hide FrameCrc, Filled, FromLittleEndian;
  }

  /** A frame is reported exactly when the link admits it. */
  lemma FrameReported(table: seq<Entry>, r: Rx, v1: bool, m: Msg)
    requires RxOk(r) && AtRest(r.state) && Intact(table, v1, m) && IsSigned(m)
    ensures var d, s := Landed(table, r, v1, m), Run(table, r, Frame(if v1 then STX_MAVLINK1 else STX, v1, m));
            && (s.received.FramingOk? <==> Admits(r.auth, d))
            && (s.received.FramingOk? ==> AtRest(s.state) && s.auth == Check(r.auth, d).0)
  {
    hide Run, FrameCrc, Filled, Covered, Check;
    FrameFed(table, r, v1, m);
    LandedCarries(table, r, v1, m);
  }

  /**
   * A frame whose signature was found good, sent again at once: it is reported a second time exactly when
   * messages of its id may come unsigned.
   */
  lemma CopyReported(table: seq<Entry>, r: Rx, v1: bool, m: Msg)
    requires RxOk(r) && AtRest(r.state) && r.auth.Auth? && Intact(table, v1, m) && IsSigned(m)
    requires Check(r.auth, Landed(table, r, v1, m)).1
    ensures var f := Frame(if v1 then STX_MAVLINK1 else STX, v1, m);
            && Run(table, r, f).received.FramingOk?
            && (Run(table, r, f + f).received.FramingOk? <==> !RejectsUnsigned(r.auth, m.msgid))
  {
    hide Run, Frame, FrameCrc, Check, Landed, RejectsUnsigned, Known, SameSender, Stamp;
    var f := Frame(if v1 then STX_MAVLINK1 else STX, v1, m);
    var d := Landed(table, r, v1, m);
    LandedCarries(table, r, v1, m);
    FrameReported(table, r, v1, m);
    var s := Run(table, r, f);
    var e := Landed(table, s, v1, m);
    CheckKeepsKnown(r.auth, d, d, 0);
    CheckKeepsAccepts(r.auth, d, m.msgid);
    RunAppend(table, r, f, f);
    LandedCarries(table, s, v1, m);
    FrameReported(table, s, v1, m);
    CheckKeepsAccepts(s.auth, e, m.msgid);
    SenderBack(d, m);
    KnownBySender(s.auth, d, m, Stamp(m));
    SenderBack(e, m);
    KnownBySender(s.auth, m, e, Stamp(m));
    if Check(s.auth, e).1 {
      AcceptedIsNewer(s.auth, e, Stamp(m));
      assert false;
    }
  }

  lemma SenderBack(m: Msg, n: Msg)
    requires Shaped(m) && Shaped(n)
    ensures SameSender(m, n) == SameSender(n, m)
  {
  }
}
