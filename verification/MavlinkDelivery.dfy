/** End to end: what senders finalize and serialize, receivers report, in order and with the payload restored. */
module MavlinkDelivery {
  import opened Bytes
  import opened Checksum
  import opened Mavlink
  import opened MavlinkSigning
  import opened MavlinkParser
  import opened MavlinkSender
  import opened MavlinkLink
  import MavlinkReplay

  /** A message handed to the sender, with the addresses it is sent from. */
  datatype Item = Item(msg: Msg, sysid: byte, compid: byte)

  /** The type is in the table; MAVLink 1 has one octet for the id. */
  ghost predicate Sendable(table: seq<Entry>, v1: bool, it: Item) {
    && Shaped(it.msg)
    && var e := Lookup(table, it.msg.msgid);
       e.Some? && (v1 ==> it.msg.msgid < 0x100 && e.value.minLen <= e.value.maxLen)
  }

  ghost predicate AllSendable(table: seq<Entry>, v1: bool, items: seq<Item>) {
    forall i :: 0 <= i < |items| ==> Sendable(table, v1, items[i])
  }

  /** Finalizing with the type's own lengths and extra octet. */
  function Finish(table: seq<Entry>, tx: Tx, it: Item): (Tx, Msg)
    requires Shaped(it.msg) && Lookup(table, it.msg.msgid).Some?
  {
    var e := Lookup(table, it.msg.msgid).value;
    Finalized(tx, it.msg, it.sysid, it.compid, e.minLen, e.maxLen, e.crcExtra)
  }

  lemma FinishShaped(table: seq<Entry>, tx: Tx, it: Item)
    requires Sendable(table, tx.v1, it)
    ensures Shaped(Finish(table, tx, it).1) && Finish(table, tx, it).0.v1 == tx.v1
  {
    hide Accumulate, Crc, Low, High, Trim, SignatureBlock, Lookup;
    var e := Lookup(table, it.msg.msgid).value;
    FinalizedPayload(tx, it.msg, it.sysid, it.compid, e.minLen, e.maxLen, e.crcExtra);
  }

  /** Everything the sender puts on the wire. */
  ghost function Transmit(table: seq<Entry>, tx: Tx, items: seq<Item>): seq<byte>
    requires AllSendable(table, tx.v1, items)
    decreases |items|
  {
    if items == [] then []
    else
      FinishShaped(table, tx, items[0]);
      var (next, f) := Finish(table, tx, items[0]);
      SendBuffer(f) + Transmit(table, next, items[1..])
  }

  /** What the receiver of an item sees: addresses, sequence number, and the payload at its full width. */
  ghost predicate Restores(table: seq<Entry>, tx: Tx, it: Item, d: Msg)
    requires Sendable(table, tx.v1, it)
  {
    var e := Lookup(table, it.msg.msgid).value;
    && Shaped(d)
    && d.msgid == it.msg.msgid && d.sysid == it.sysid && d.compid == it.compid && d.seqno == tx.seqno
    && d.incompat == (if Signs(tx) then 1 else 0) && d.compat == 0
    && forall i :: 0 <= i < e.maxLen ==> d.payload[i] == if tx.v1 && i >= e.minLen then 0 else it.msg.payload[i]
  }

  /** One report per item, at the last byte of its frame, in order, and nothing in between. */
  ghost predicate Delivers(table: seq<Entry>, tx: Tx, items: seq<Item>, o: seq<Option<Msg>>)
    requires AllSendable(table, tx.v1, items)
    decreases |items|
  {
    if items == [] then o == []
    else
      FinishShaped(table, tx, items[0]);
      var (next, f) := Finish(table, tx, items[0]);
      var n := |SendBuffer(f)|;
      && 0 < n <= |o| && Silent(o[..n - 1])
      && o[n - 1].Some? && Restores(table, tx, items[0], o[n - 1].value)
      && Delivers(table, next, items[1..], o[n..])
  }

  /** Every message in turn gets past the link's signing state. */
  ghost predicate AllAdmitted(table: seq<Entry>, a: Auth, tx: Tx, items: seq<Item>)
    requires AllSendable(table, tx.v1, items)
    decreases |items|
  {
    items == [] || (
      FinishShaped(table, tx, items[0]);
      var (next, f) := Finish(table, tx, items[0]);
      Admits(a, Sent(f)) && AllAdmitted(table, AuthAfter(a, Sent(f)), next, items[1..]))
  }

  // ----- One frame -----

  lemma FinishIntact(table: seq<Entry>, tx: Tx, it: Item)
    requires Sendable(table, tx.v1, it)
    ensures var f := Finish(table, tx, it).1; Shaped(f) && Intact(table, tx.v1, Sent(f))
  {
    hide Accumulate, Crc, Low, High, Trim, SignatureBlock, Lookup, FrameCrc;
    var e := Lookup(table, it.msg.msgid).value;
    assert e.crcExtra == CrcExtra(table, it.msg.msgid);
    SentChecksum(table, tx, it.msg, it.sysid, it.compid, e.minLen, e.maxLen, e.crcExtra);
  }

  lemma CheckSeesTheFrame(a: Auth, m: Msg, d: Msg)
    requires Shaped(m) && Shaped(d) && m.payload[..m.len] == d.payload[..d.len]
    requires d == m.(checksum := d.checksum, payload := d.payload)
    ensures Check(a, d) == Check(a, m)
  {
    hide Sha256.Hash48;
    SameFind(if a.Auth? && a.streams.Some? then a.streams.value else [], m, d);
    assert SignedOctets(if a.Auth? then a.signing.key else [], m, m.ck, m.signature[..7])
        == SignedOctets(if a.Auth? then a.signing.key else [], d, d.ck, d.signature[..7]);
  }

  lemma AdmitsTheArrived(table: seq<Entry>, a: Auth, v1: bool, base: Msg, m: Msg)
    requires Shaped(base) && Shaped(m) && base.magic == m.magic
    ensures var d := Arrived(table, v1, base, m);
            Admits(a, d) == Admits(a, m) && AuthAfter(a, d) == AuthAfter(a, m)
  {
    hide Check, FrameCrc, Lookup;
    var d := Arrived(table, v1, base, m);
    if IsSigned(m) {
      assert d.payload[..d.len] == m.payload[..m.len];
      CheckSeesTheFrame(a, m, d);
    }
  }

  lemma FinishFields(table: seq<Entry>, tx: Tx, it: Item)
    requires Sendable(table, tx.v1, it)
    ensures var f, e := Finish(table, tx, it).1, Lookup(table, it.msg.msgid).value;
            && Shaped(f) && f.msgid == it.msg.msgid && f.sysid == it.sysid && f.compid == it.compid
            && f.seqno == tx.seqno
            && f.incompat == (if Signs(tx) then 1 else 0) && f.compat == 0
            && f.magic == (if tx.v1 then STX_MAVLINK1 else STX)
            && f.len <= e.maxLen && (tx.v1 ==> f.len == e.minLen) && f.payload[..f.len] == it.msg.payload[..f.len]
            && (!tx.v1 ==> forall i :: f.len as int <= i < e.maxLen ==> it.msg.payload[i] == 0)
  {
    hide Accumulate, Crc, Low, High, SignatureBlock, Lookup, Trim, Covered;
    var e := Lookup(table, it.msg.msgid).value;
    FinalizedPayload(tx, it.msg, it.sysid, it.compid, e.minLen, e.maxLen, e.crcExtra);
    TrimDropsZeros(it.msg.payload, e.maxLen);
  }

  lemma ArrivedRestores(table: seq<Entry>, tx: Tx, it: Item, base: Msg)
    requires Sendable(table, tx.v1, it) && Shaped(base)
    ensures var f := Finish(table, tx, it).1;
            Shaped(f) && Restores(table, tx, it, Arrived(table, tx.v1, base, Sent(f)))
  {
    hide FrameCrc, Finish, Signs, Low, High, Lookup;
    FinishFields(table, tx, it);
    var f, e := Finish(table, tx, it).1, Lookup(table, it.msg.msgid).value;
    var d := Arrived(table, tx.v1, base, Sent(f));
    forall i | 0 <= i < e.maxLen
      ensures d.payload[i] == if tx.v1 && i >= e.minLen then 0 else it.msg.payload[i]
    {
      assert i < f.len ==> f.payload[..f.len][i] == it.msg.payload[..f.len][i];
    }
  }

  /** One message end to end: silence until its last byte, then the message. */
  lemma OneDelivered(table: seq<Entry>, r: Rx, tx: Tx, it: Item)
    requires RxOk(r) && AtRest(r.state) && Sendable(table, tx.v1, it)
    requires Shaped(Finish(table, tx, it).1) && Admits(r.auth, Sent(Finish(table, tx, it).1))
    ensures var f := Finish(table, tx, it).1;
            var wire := SendBuffer(f);
            var n, o, s := |wire|, Reports(table, r, wire), Run(table, r, wire);
            && n > 0 && Silent(o[..n - 1]) && o[n - 1].Some? && Restores(table, tx, it, o[n - 1].value)
            && AtRest(s.state) && s.auth == AuthAfter(r.auth, Sent(f))
  {
    hide Run, Finish, Frame, Admits, Arrived, AuthAfter, SendBuffer, Restores, Intact, Lookup;
    var f := Finish(table, tx, it).1;
    var m, stx := Sent(f), if tx.v1 then STX_MAVLINK1 else STX;
    FinishIntact(table, tx, it);
    FinishSent(table, tx, it);
    FrameFed(table, r, tx.v1, m);
    FrameSilent(table, r, tx.v1, m);
    var base := Begun(r, tx.v1).msg;
    AdmitsTheArrived(table, r.auth, tx.v1, base, m);
    ArrivedRestores(table, tx, it, base);
  }

  lemma FinishSent(table: seq<Entry>, tx: Tx, it: Item)
    requires Sendable(table, tx.v1, it)
    ensures var f, stx := Finish(table, tx, it).1, if tx.v1 then STX_MAVLINK1 else STX;
            Shaped(f) && f.magic == stx && SendBuffer(f) == Frame(stx, tx.v1, Sent(f)) && |SendBuffer(f)| > 0
  {
    hide Accumulate, Crc, Low, High, SignatureBlock, Lookup, Trim, Covered;
    var e := Lookup(table, it.msg.msgid).value;
    SentIsFrame(tx, it.msg, it.sysid, it.compid, e.minLen, e.maxLen, e.crcExtra);
  }

  // ----- Any number of messages -----

  lemma {:induction false} AdmittedDelivered(table: seq<Entry>, r: Rx, tx: Tx, items: seq<Item>)
    requires RxOk(r) && AtRest(r.state) && AllSendable(table, tx.v1, items) && AllAdmitted(table, r.auth, tx, items)
    ensures Delivers(table, tx, items, Reports(table, r, Transmit(table, tx, items)))
    decreases |items|
  {
    hide Run, Finish, Admits, AuthAfter, SendBuffer, Restores, Reports, Silent, Lookup;
    if items == [] {
      NoReports(table, r);
    } else {
      FinishShaped(table, tx, items[0]);
      OneDelivered(table, r, tx, items[0]);
      var (next, f) := Finish(table, tx, items[0]);
      var wire, rest := SendBuffer(f), Transmit(table, next, items[1..]);
      var s := Run(table, r, wire);
      AdmittedDelivered(table, s, next, items[1..]);
      ReportsAppend(table, r, wire, rest);
      var o, n := Reports(table, r, wire + rest), |wire|;
      assert o[n..] == Reports(table, s, rest) && o[..n - 1] == Reports(table, r, wire)[..n - 1];
      assert o[n - 1] == Reports(table, r, wire)[n - 1];
    }
  }

  /** A message the link does not admit is not reported at the end of its frame. */
  lemma UnadmittedUnreported(table: seq<Entry>, r: Rx, tx: Tx, it: Item)
    requires RxOk(r) && AtRest(r.state) && Sendable(table, tx.v1, it)
    requires Shaped(Finish(table, tx, it).1) && !Admits(r.auth, Sent(Finish(table, tx, it).1))
    ensures var wire := SendBuffer(Finish(table, tx, it).1);
            |wire| > 0 && Reports(table, r, wire)[|wire| - 1] == None
  {
    hide Run, Finish, Frame, Admits, Arrived, AuthAfter, SendBuffer, Intact, Lookup;
    var f := Finish(table, tx, it).1;
    FinishIntact(table, tx, it);
    FinishSent(table, tx, it);
    FrameFed(table, r, tx.v1, Sent(f));
    AdmitsTheArrived(table, r.auth, tx.v1, Begun(r, tx.v1).msg, Sent(f));
  }

  /** And nothing else is: a sequence is delivered exactly when the link admits every message in its turn. */
  lemma {:induction false} DeliveredExactly(table: seq<Entry>, r: Rx, tx: Tx, items: seq<Item>)
    requires RxOk(r) && AtRest(r.state) && AllSendable(table, tx.v1, items)
    ensures Delivers(table, tx, items, Reports(table, r, Transmit(table, tx, items)))
            <==> AllAdmitted(table, r.auth, tx, items)
    decreases |items|
  {
    hide Run, Finish, Admits, AuthAfter, SendBuffer, Restores, Reports, Silent, Lookup;
    if AllAdmitted(table, r.auth, tx, items) {
      AdmittedDelivered(table, r, tx, items);
    } else {
      FinishShaped(table, tx, items[0]);
      var (next, f) := Finish(table, tx, items[0]);
      var wire, rest := SendBuffer(f), Transmit(table, next, items[1..]);
      ReportsAppend(table, r, wire, rest);
      var o, n := Reports(table, r, wire + rest), |wire|;
      if Admits(r.auth, Sent(f)) {
        OneDelivered(table, r, tx, items[0]);
        DeliveredExactly(table, Run(table, r, wire), next, items[1..]);
        assert o[n..] == Reports(table, Run(table, r, wire), rest);
      } else {
        UnadmittedUnreported(table, r, tx, items[0]);
        assert o[n - 1] == Reports(table, r, wire)[n - 1];
      }
    }
  }

  lemma NoReports(table: seq<Entry>, r: Rx)
    requires RxOk(r)
    ensures Reports(table, r, []) == []
  {
  }

  lemma {:induction false} UnsignedLinkAdmits(table: seq<Entry>, tx: Tx, items: seq<Item>)
    requires AllSendable(table, tx.v1, items)
    ensures AllAdmitted(table, Unsigned, tx, items)
    decreases |items|
  {
    hide Finish;
    if items != [] {
      FinishShaped(table, tx, items[0]);
      UnsignedLinkAdmits(table, Finish(table, tx, items[0]).0, items[1..]);
    }
  }

  /**
   * Round trip. Over a link without signing, any sequence of messages, signed or not, in either protocol
   * version, reaches an idle parser exactly once each, in order, with sequence numbers counting on.
   */
  lemma EveryMessageDelivered(table: seq<Entry>, r: Rx, tx: Tx, items: seq<Item>)
    requires RxOk(r) && AtRest(r.state) && r.auth.Unsigned? && AllSendable(table, tx.v1, items)
    ensures Delivers(table, tx, items, Reports(table, r, Transmit(table, tx, items)))
  {
    UnsignedLinkAdmits(table, tx, items);
    AdmittedDelivered(table, r, tx, items);
  }

  // ----- Delivery, read as a list of messages -----

  /** The messages among the reports. */
  ghost function Reported(o: seq<Option<Msg>>): seq<Msg> {
    if o == [] then [] else (if o[0].Some? then [o[0].value] else []) + Reported(o[1..])
  }

  lemma {:induction false} SilenceReportsNothing(a: seq<Option<Msg>>, b: seq<Option<Msg>>)
    requires Silent(a)
    ensures Reported(a + b) == Reported(b)
  {
    if a == [] {
      assert a + b == b;
    } else {
      assert (a + b)[1..] == a[1..] + b && a[0] == None;
      SilenceReportsNothing(a[1..], b);
    }
  }

  /** The item with that sequence number, its payload at full width. */
  ghost predicate Carries(table: seq<Entry>, v1: bool, it: Item, seqno: int, d: Msg)
    requires Sendable(table, v1, it)
  {
    var e := Lookup(table, it.msg.msgid).value;
    && Shaped(d) && d.msgid == it.msg.msgid && d.sysid == it.sysid && d.compid == it.compid && d.seqno == seqno
    && forall i :: 0 <= i < e.maxLen ==> d.payload[i] == if v1 && i >= e.minLen then 0 else it.msg.payload[i]
  }

  lemma FinishCounts(table: seq<Entry>, tx: Tx, it: Item)
    requires Sendable(table, tx.v1, it)
    ensures Finish(table, tx, it).0.seqno == (tx.seqno + 1) % 0x100
  {
    hide Accumulate, Crc, Low, High, SignatureBlock, Lookup, Trim, Covered;
  }

  /** As many messages as were sent, the k-th carrying the k-th item and the k-th sequence number modulo 256. */
  lemma {:induction false} DeliveredInSequence(table: seq<Entry>, tx: Tx, items: seq<Item>, o: seq<Option<Msg>>)
    requires AllSendable(table, tx.v1, items) && Delivers(table, tx, items, o)
    ensures |Reported(o)| == |items|
    ensures forall k :: 0 <= k < |items| ==> Carries(table, tx.v1, items[k], (tx.seqno + k) % 0x100, Reported(o)[k])
    decreases |items|
  {
    hide Finish, Lookup, Silent, Restores, Carries, Reported, SendBuffer;
    if items == [] {
      NothingReported();
    } else {
      FinishShaped(table, tx, items[0]);
      FinishCounts(table, tx, items[0]);
      var (next, f) := Finish(table, tx, items[0]);
      var n := |SendBuffer(f)|;
      OneReported(o, n);
      RestoresCarries(table, tx, items[0], o[n - 1].value);
      DeliveredInSequence(table, next, items[1..], o[n..]);
      CarriedOn(table, tx.v1, items, tx.seqno, next.seqno, o[n - 1].value, Reported(o[n..]));
    }
  }

  lemma NothingReported()
    ensures Reported([]) == []
  {
  }

  lemma OneReported(o: seq<Option<Msg>>, n: nat)
    requires 0 < n <= |o| && Silent(o[..n - 1]) && o[n - 1].Some?
    ensures Reported(o) == [o[n - 1].value] + Reported(o[n..])
  {
    SilenceReportsNothing(o[..n - 1], o[n - 1..]);
    assert o[..n - 1] + o[n - 1..] == o && o[n - 1..][1..] == o[n..];
  }

  lemma RestoresCarries(table: seq<Entry>, tx: Tx, it: Item, d: Msg)
    requires Sendable(table, tx.v1, it) && Restores(table, tx, it, d)
    ensures Carries(table, tx.v1, it, tx.seqno, d)
  {
    hide Lookup;
  }

  lemma CarriedOn(table: seq<Entry>, v1: bool, items: seq<Item>, first: byte, next: byte, d: Msg, more: seq<Msg>)
    requires AllSendable(table, v1, items) && items != [] && next == (first + 1) % 0x100 && |more| == |items| - 1
    requires Carries(table, v1, items[0], first, d)
    requires forall k :: 0 <= k < |more| ==> Carries(table, v1, items[1..][k], (next + k) % 0x100, more[k])
    ensures forall k :: 0 <= k < |items| ==> Carries(table, v1, items[k], (first + k) % 0x100, ([d] + more)[k])
  {
    hide Sendable, Carries;
    forall k | 0 < k < |items| ensures Carries(table, v1, items[k], (first + k) % 0x100, ([d] + more)[k]) {
      assert items[k] == items[1..][k - 1] && ([d] + more)[k] == more[k - 1];
      assert (next + (k - 1)) % 0x100 == (first + k) % 0x100;
    }
  }

  // ----- Signed links -----

  ghost function SentMessages(table: seq<Entry>, tx: Tx, items: seq<Item>): (ms: seq<Msg>)
    requires AllSendable(table, tx.v1, items)
    ensures |ms| == |items| && AllShaped(ms)
    decreases |items|
  {
    if items == [] then []
    else
      FinishShaped(table, tx, items[0]);
      var (next, f) := Finish(table, tx, items[0]);
      [Sent(f)] + SentMessages(table, next, items[1..])
  }

  ghost predicate OneAddress(items: seq<Item>) {
    forall i :: 0 <= i < |items| ==> items[i].sysid == items[0].sysid && items[i].compid == items[0].compid
  }

  lemma FinishSigned(table: seq<Entry>, tx: Tx, it: Item)
    requires Sendable(table, tx.v1, it) && Signs(tx)
    ensures var (next, f) := Finish(table, tx, it);
            && Shaped(f) && Sent(f).signature == SignatureBlock(tx.signing.value, Sent(f), Sent(f).ck)
            && Signs(next) && next.signing.value == Tick(tx.signing.value) && IsSigned(Sent(f))
  {
    hide Accumulate, Crc, Lookup, Trim, Covered, Low, High;
    FinishFields(table, tx, it);
    var e := Lookup(table, it.msg.msgid).value;
    var f := Finish(table, tx, it).1;
    var h := Addressed(tx, it.msg, it.sysid, it.compid, e.minLen, e.maxLen);
    SignatureIgnoresItself(tx.signing.value, Checksummed(h, f.checksum), Sent(f));
  }

  lemma SignatureIgnoresItself(s: Signing, m: Msg, n: Msg)
    requires Shaped(m) && Shaped(n) && n == m.(ck := n.ck, signature := n.signature)
    ensures SignatureBlock(s, m, n.ck) == SignatureBlock(s, n, n.ck)
  {
    hide Sha256.Hash48, LittleEndian;
  }

  lemma {:induction false} SentMessagesSigned(table: seq<Entry>, tx: Tx, items: seq<Item>)
    requires AllSendable(table, tx.v1, items) && Signs(tx)
    ensures SignedRun(tx.signing.value, SentMessages(table, tx, items))
    ensures forall i :: 0 <= i < |items| ==>
      var m := SentMessages(table, tx, items)[i]; m.sysid == items[i].sysid && m.compid == items[i].compid
    decreases |items|
  {
    hide Finish, SignatureBlock, Signs, Lookup;
    if items != [] {
      FinishShaped(table, tx, items[0]);
      FinishSigned(table, tx, items[0]);
      FinishFields(table, tx, items[0]);
      var next := Finish(table, tx, items[0]).0;
      SentMessagesSigned(table, next, items[1..]);
      assert forall i :: 0 < i < |items| ==> items[i] == items[1..][i - 1];
    }
  }

  lemma {:induction false} VerdictsAdmit(table: seq<Entry>, a: Auth, tx: Tx, items: seq<Item>)
    requires AllSendable(table, tx.v1, items) && Signs(tx) && All(Verdicts(a, SentMessages(table, tx, items)))
    ensures AllAdmitted(table, a, tx, items)
    decreases |items|
  {
    hide Finish, Check, SignatureBlock, Signs, Lookup, RejectsUnsigned;
    if items != [] {
      FinishShaped(table, tx, items[0]);
      FinishSigned(table, tx, items[0]);
      var (next, f) := Finish(table, tx, items[0]);
      var ms := SentMessages(table, tx, items);
      assert ms[0] == Sent(f) && ms[1..] == SentMessages(table, next, items[1..]);
      var b := Check(a, Sent(f)).0;
      assert Verdicts(a, ms) == [Check(a, Sent(f)).1] + Verdicts(b, ms[1..]);
      AllOfCons(Check(a, Sent(f)).1, Verdicts(b, ms[1..]));
      VerdictsAdmit(table, b, next, items[1..]);
    }
  }

  /**
   * Round trip over a signed link. A run signed by one sender is delivered whole to a receiver with the same
   * key, provided its first timestamp is welcome there and timestamps stay below 2^48.
   */
  lemma EverySignedMessageDelivered(table: seq<Entry>, r: Rx, tx: Tx, items: seq<Item>)
    requires RxOk(r) && AtRest(r.state) && AllSendable(table, tx.v1, items) && OneAddress(items) && items != []
    requires Signs(tx) && tx.signing.value.timestamp + |items| <= TWO_TO_48
    requires r.auth.Auth? && r.auth.streams.Some? && TableOk(r.auth) && r.auth.signing.key == tx.signing.value.key
    requires Welcome(r.auth, SentMessages(table, tx, items)[0], tx.signing.value.timestamp)
    ensures Delivers(table, tx, items, Reports(table, r, Transmit(table, tx, items)))
  {
    hide Reports, Transmit, Delivers, Welcome, SignatureBlock, Sendable;
    var ms := SentMessages(table, tx, items);
    SentMessagesSigned(table, tx, items);
    assert OneSender(ms);
    SignedRunAccepted(r.auth, tx.signing.value, ms);
    VerdictsAdmit(table, r.auth, tx, items);
    AdmittedDelivered(table, r, tx, items);
  }

  /**
   * Where the first message's id may not come unsigned, such a run is delivered exactly when its first timestamp
   * is welcome.
   */
  lemma SignedDeliveredExactly(table: seq<Entry>, r: Rx, tx: Tx, items: seq<Item>)
    requires RxOk(r) && AtRest(r.state) && AllSendable(table, tx.v1, items) && OneAddress(items) && items != []
    requires Signs(tx) && tx.signing.value.timestamp + |items| <= TWO_TO_48
    requires r.auth.Auth? && r.auth.streams.Some? && TableOk(r.auth) && r.auth.signing.key == tx.signing.value.key
    requires RejectsUnsigned(r.auth, items[0].msg.msgid)
    ensures Delivers(table, tx, items, Reports(table, r, Transmit(table, tx, items)))
            <==> Welcome(r.auth, SentMessages(table, tx, items)[0], tx.signing.value.timestamp)
  {
    hide Reports, Transmit, Delivers, Welcome, SignatureBlock, Sendable, Check, Finish, Lookup;
    hide TableOk, RejectsUnsigned;
    var m := SentMessages(table, tx, items)[0];
    if Welcome(r.auth, m, tx.signing.value.timestamp) {
      EverySignedMessageDelivered(table, r, tx, items);
    } else {
      FinishShaped(table, tx, items[0]);
      FinishSigned(table, tx, items[0]);
      FinishFields(table, tx, items[0]);
      WelcomeIsAccepted(r.auth, tx.signing.value, m);
      MavlinkReplay.CheckKeepsAccepts(r.auth, m, m.msgid);
      DeliveredExactly(table, r, tx, items);
    }
  }
}
