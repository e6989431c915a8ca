/** Message framing of the Matter server: a length prefix on a byte stream. */
module MatterFraming {
  import opened Bytes

  const RECV_BUF_SIZE := 4096
  const PREFIX := 4

  // ----- Frames -----

  function Prefix(n: nat): (p: seq<byte>)
    ensures |p| == PREFIX
  {
    LittleEndian(n, PREFIX)
  }

  function PrefixValue(p: seq<byte>): nat
    requires |p| >= PREFIX
  {
    FromLittleEndian(p[..PREFIX])
  }

  lemma PrefixRead(n: nat)
    requires n < 0x1_0000_0000
    ensures PrefixValue(Prefix(n)) == n
  {
    assert Pow256(2) == 0x1_0000 && Pow256(4) == 0x1_0000_0000;
    LittleEndianRoundTrip(n, PREFIX);
    assert Prefix(n)[..PREFIX] == Prefix(n);
  }

  /** What send_framed puts on the wire. */
  function Frame(message: seq<byte>): seq<byte> {
    Prefix(|message|) + message
  }

  function Frames(messages: seq<seq<byte>>): seq<byte> {
    if messages == [] then [] else Frame(messages[0]) + Frames(messages[1..])
  }

  /** What a stream denotes: the messages, the bytes of an unfinished frame, or a bad length behind them. */
  datatype Received = Received(messages: seq<seq<byte>>, rest: seq<byte>, closed: bool)

  function Split(s: seq<byte>): (r: Received)
    ensures |r.rest| <= |s| && (!r.closed ==> |r.rest| < PREFIX + RECV_BUF_SIZE)
  {
    if |s| < PREFIX then Received([], s, false)
    else
      var n := PrefixValue(s);
      if n == 0 || n > RECV_BUF_SIZE then Received([], s, true)
      else if |s| < PREFIX + n then Received([], s, false)
      else
        var r := Split(s[PREFIX + n..]);
        Received([s[PREFIX..PREFIX + n]] + r.messages, r.rest, r.closed)
  }

  lemma SplitStep(s: seq<byte>)
    ensures |s| < PREFIX ==> Split(s) == Received([], s, false)
    ensures |s| >= PREFIX ==>
              var n := PrefixValue(s);
              if n == 0 || n > RECV_BUF_SIZE then Split(s) == Received([], s, true)
              else if |s| < PREFIX + n then Split(s) == Received([], s, false)
              else
                var r := Split(s[PREFIX + n..]);
                Split(s) == Received([s[PREFIX..PREFIX + n]] + r.messages, r.rest, r.closed)
  {
    hide PrefixValue;
  }

  /** Reassembly does not depend on chunking: splitting a prefix first changes nothing. */
  lemma {:induction false} SplitAppend(a: seq<byte>, b: seq<byte>)
    ensures var r, t := Split(a), Split(Split(a).rest + b);
            && (!r.closed ==> Split(a + b) == Received(r.messages + t.messages, t.rest, t.closed))
            && (r.closed ==> Split(a + b).messages == r.messages && Split(a + b).closed)
    decreases |a|
  {
    hide Split, PrefixValue;
    SplitStep(a);
    SplitStep(a + b);
    if |a| >= PREFIX {
      var n := PrefixValue(a);
      PrefixOf(a, a + b);
      if 0 < n <= RECV_BUF_SIZE && |a| >= PREFIX + n {
        assert (a + b)[PREFIX + n..] == a[PREFIX + n..] + b;
        assert (a + b)[PREFIX..PREFIX + n] == a[PREFIX..PREFIX + n];
        SplitAppend(a[PREFIX + n..], b);
        var m, r := [a[PREFIX..PREFIX + n]], Split(a[PREFIX + n..]);
        var t := Split(r.rest + b);
        assert m + (r.messages + t.messages) == m + r.messages + t.messages;
      }
    }
    assert [] + Split(a + b).messages == Split(a + b).messages;
  }

  lemma PrefixOf(a: seq<byte>, b: seq<byte>)
    requires |a| >= PREFIX && a <= b
    ensures PrefixValue(a) == PrefixValue(b)
  {
    assert a[..PREFIX] == b[..PREFIX];
  }

  predicate Sendable(messages: seq<seq<byte>>) {
    forall i :: 0 <= i < |messages| ==> 1 <= |messages[i]| <= RECV_BUF_SIZE
  }

  /** Everything that was framed is recovered, whatever piece of a further frame follows. */
  lemma {:induction false} FramesSplit(messages: seq<seq<byte>>, tail: seq<byte>)
    requires Sendable(messages)
    ensures Split(Frames(messages) + tail) ==
      Received(messages + Split(tail).messages, Split(tail).rest, Split(tail).closed)
  {
    hide *;
    if messages == [] {
      NoFrames();
      assert [] + tail == tail && [] + Split(tail).messages == Split(tail).messages;
    } else {
      var m, p, more := messages[0], Prefix(|messages[0]|), Frames(messages[1..]);
      FirstOfFrames(messages);
      assert p + m + more + tail == p + m + (more + tail);
      FirstFrame(m, more + tail);
      FramesSplit(messages[1..], tail);
      assert [m] + (messages[1..] + Split(tail).messages) == messages + Split(tail).messages;
    }
  }

  lemma NoFrames()
    ensures Frames([]) == []
  {
  }

  lemma FirstOfFrames(messages: seq<seq<byte>>)
    requires messages != []
    ensures Frames(messages) == Prefix(|messages[0]|) + messages[0] + Frames(messages[1..])
    ensures Sendable(messages) ==> 1 <= |messages[0]| <= RECV_BUF_SIZE && Sendable(messages[1..])
  {
    hide Prefix;
  }

  lemma FirstFrame(m: seq<byte>, rest: seq<byte>)
    requires 1 <= |m| <= RECV_BUF_SIZE
    ensures var t := Split(rest);
            Split(Prefix(|m|) + m + rest) == Received([m] + t.messages, t.rest, t.closed)
  {
    var s := Prefix(|m|) + m + rest;
    PrefixRead(|m|);
    PrefixOf(Prefix(|m|), s);
    assert s[PREFIX..PREFIX + |m|] == m && s[PREFIX + |m|..] == rest;
  }

  /** A frame cut short yields nothing and closes nothing. */
  lemma CutFrame(m: seq<byte>, sent: nat)
    requires 1 <= |m| <= RECV_BUF_SIZE && sent < |Frame(m)|
    ensures Split(Frame(m)[..sent]) == Received([], Frame(m)[..sent], false)
  {
    PrefixRead(|m|);
    if sent >= PREFIX {
      PrefixOf(Prefix(|m|), Frame(m)[..sent]);
    }
  }

  lemma PrefixIs(p: seq<byte>)
    requires |p| >= PREFIX
    ensures PrefixValue(p) == p[0] as int + 256 * (p[1] as int) + 65536 * (p[2] as int) + 16777216 * (p[3] as int)
  {
    assert p[..4][1..] == p[1..4] && p[1..4][1..] == p[2..4] && p[2..4][1..] == p[3..4] && p[3..4][1..] == [];
    assert FromLittleEndian(p[3..4]) == p[3]
        && FromLittleEndian(p[2..4]) == p[2] as int + 256 * FromLittleEndian(p[3..4]);
    assert FromLittleEndian(p[1..4]) == p[1] as int + 256 * FromLittleEndian(p[2..4]);
  }

  /**
   * Whatever send_framed wrote is read back: the complete messages, and after a failed send the beginning of
   * one more, which is kept waiting and closes nothing.
   */
  lemma SentIsRecovered(messages: seq<seq<byte>>, m: seq<byte>, sent: nat)
    requires Sendable(messages) && 1 <= |m| <= RECV_BUF_SIZE && sent < |Frame(m)|
    ensures Split(Frames(messages) + Frame(m)[..sent]) == Received(messages, Frame(m)[..sent], false)
  {
    hide *;
    CutFrame(m, sent);
    FramesSplit(messages, Frame(m)[..sent]);
    assert messages + [] == messages;
  }

  // ----- The octets of a frame, and what closes a connection -----

  /** A frame on the wire: four octets of length, the lowest first, and the message. */
  lemma FrameOctets(m: seq<byte>)
    requires |m| <= 4096
    ensures var f := Frame(m);
            && |f| == 4 + |m| && f[4..] == m
            && f[0] == |m| % 256 && f[1] == |m| / 256 && f[2] == 0 && f[3] == 0
  {
    var p := Prefix(|m|);
    assert Frame(m)[..4] == p;
    LengthOctets(|m|);
  }

  lemma LengthOctets(n: nat)
    requires n < 0x1_0000_0000
    ensures Prefix(n) == [n % 256, n / 256 % 256, n / 65536 % 256, n / 16777216]
  {
    assert n / 256 / 256 == n / 65536 && n / 65536 / 256 == n / 16777216;
    assert LittleEndian(n / 16777216, 1) == [n / 16777216];
    assert LittleEndian(n / 65536, 2) == [n / 65536 % 256] + LittleEndian(n / 16777216, 1);
    assert LittleEndian(n / 256, 3) == [n / 256 % 256] + LittleEndian(n / 65536, 2);
  }

  /** Behind complete frames a connection is closed exactly by four octets that give a length of 0 or above 4096. */
  lemma BadLengthCloses(messages: seq<seq<byte>>, tail: seq<byte>)
    requires Sendable(messages) && |tail| >= 4
    ensures var n := tail[0] as int + 256 * (tail[1] as int) + 65536 * (tail[2] as int) + 16777216 * (tail[3] as int);
            var r := Split(Frames(messages) + tail);
            && (n == 0 || n > 4096 ==> r == Received(messages, tail, true))
            && (0 < n <= 4096 && |tail| == 4 ==> r == Received(messages, tail, false))
  {
    hide Split, PrefixValue, Frames;
    FramesSplit(messages, tail);
    SplitStep(tail);
    PrefixIs(tail);
    assert messages + [] == messages;
  }

  // ----- Sending -----

  /** How many of `n` bytes a plan of sends takes, and what is left of the plan then. */
  function Accepts(plan: seq<int>, n: nat): (k: nat)
    ensures k <= n
    decreases |plan|
  {
    if n == 0 || plan == [] || plan[0] <= 0 then 0
    else if plan[0] >= n then n
    else plan[0] + Accepts(plan[1..], n - plan[0])
  }

  function PlanAfter(plan: seq<int>, n: nat): seq<int>
    decreases |plan|
  {
    if n == 0 || plan == [] then plan
    else if plan[0] <= 0 || plan[0] >= n then plan[1..]
    else PlanAfter(plan[1..], n - plan[0])
  }

  /** Sends that each take something: as many as there are bytes are enough, and use up no more than that. */
  lemma {:induction false} PositivePlanCovers(plan: seq<int>, n: nat)
    requires (forall i :: 0 <= i < |plan| ==> plan[i] > 0) && |plan| >= n
    ensures Accepts(plan, n) == n && |PlanAfter(plan, n)| >= |plan| - n
    ensures forall i :: 0 <= i < |PlanAfter(plan, n)| ==> PlanAfter(plan, n)[i] > 0
    decreases |plan|
  {
    if n > 0 && plan[0] < n {
      PositivePlanCovers(plan[1..], n - plan[0]);
    }
  }

  /** A send that fails, or none left, before the bytes are out: they do not all go. */
  lemma {:induction false} StoppedPlan(plan: seq<int>, n: nat)
    requires forall k :: 0 <= k <= |plan| && Sum(plan[..k]) >= n ==> exists i :: 0 <= i < k && plan[i] <= 0
    ensures n > 0 ==> Accepts(plan, n) < n
    decreases |plan|
  {
    if n > 0 && plan != [] && plan[0] > 0 {
      assert plan[..1][0] == plan[0] && plan[..1][1..] == [] && Sum(plan[..1]) == plan[0];
      if plan[0] >= n {
        assert false;
      }
      forall k | 0 <= k <= |plan| - 1 && Sum(plan[1..][..k]) >= n - plan[0]
        ensures exists i :: 0 <= i < k && plan[1..][i] <= 0
      {
        assert plan[..k + 1][1..] == plan[1..][..k] && plan[..k + 1][0] == plan[0];
        var i :| 0 <= i < k + 1 && plan[i] <= 0;
        assert plan[1..][i - 1] == plan[i];
      }
      StoppedPlan(plan[1..], n - plan[0]);
    }
  }

  /** The first k sends succeed, and cover n bytes together. */
  predicate Covers(plan: seq<int>, n: nat, k: nat) {
    k <= |plan| && (forall i :: 0 <= i < k ==> plan[i] > 0) && Sum(plan[..k]) >= n
  }

  lemma {:induction false} CoveredPlan(plan: seq<int>, n: nat, k: nat)
    requires Covers(plan, n, k)
    ensures Accepts(plan, n) == n
    decreases k
  {
    if n > 0 && k > 0 && plan[0] < n {
      assert plan[..k][1..] == plan[1..][..k - 1] && plan[..k][0] == plan[0];
      CoveredPlan(plan[1..], n - plan[0], k - 1);
    }
  }

  /** All bytes go exactly when some first sends, none of them failing, cover them. */
  lemma AllTaken(plan: seq<int>, n: nat)
    ensures Accepts(plan, n) == n <==> exists k :: Covers(plan, n, k)
  {
    hide Accepts, Sum;
    if k :| Covers(plan, n, k) {
      CoveredPlan(plan, n, k);
    } else {
      forall k | 0 <= k <= |plan| && Sum(plan[..k]) >= n ensures exists i :: 0 <= i < k && plan[i] <= 0 {
        assert !Covers(plan, n, k);
      }
      StoppedPlan(plan, n);
      NothingCovers(plan);
    }
  }

  lemma NothingCovers(plan: seq<int>)
    ensures Covers(plan, 0, 0)
  {
  }

  function Sum(s: seq<int>): int {
    if s == [] then 0 else s[0] + Sum(s[1..])
  }

  /** Is every byte of a frame taken? */
  predicate FrameGoes(plan: seq<int>, n: nat) {
    Accepts(plan, 4) == 4 && Accepts(PlanAfter(plan, 4), n) == n
  }

  lemma PositivePlanSends(plan: seq<int>, n: nat)
    requires (forall i :: 0 <= i < |plan| ==> plan[i] > 0) && |plan| >= 4 + n
    ensures FrameGoes(plan, n)
  {
    PositivePlanCovers(plan, 4);
    PositivePlanCovers(PlanAfter(plan, 4), n);
  }

  /** A socket whose sends take as many bytes as `plan` says, or fail. */
  class Socket {
    var wire: seq<byte>
    var plan: seq<int>

    constructor (plan: seq<int>)
      ensures wire == [] && this.plan == plan
    {
      wire, this.plan := [], plan;
    }

    method Send(data: seq<byte>) returns (n: int)
      modifies this
      ensures n == if old(plan) == [] then -1 else if old(plan)[0] <= |data| then old(plan)[0] else |data|
      ensures plan == if old(plan) == [] then [] else old(plan)[1..]
      ensures wire == old(wire) + if n > 0 then data[..n] else []
    {
      if plan == [] {
        return -1;
      }
      n := if plan[0] <= |data| then plan[0] else |data|;
      plan := plan[1..];
      wire := wire + if n > 0 then data[..n] else [];
    }

    /** The send loops of send_framed. */
    method SendAll(data: seq<byte>) returns (ok: bool, sent: nat)
      modifies this
      ensures sent <= |data| && wire == old(wire) + data[..sent]
      ensures ok <==> sent == |data|
      ensures sent == Accepts(old(plan), |data|) && plan == PlanAfter(old(plan), |data|)
    {
      sent := 0;
      assert data[..0] == [];
      while sent < |data|
        invariant sent <= |data| && wire == old(wire) + data[..sent]
        invariant sent + Accepts(plan, |data| - sent) == Accepts(old(plan), |data|)
        invariant PlanAfter(plan, |data| - sent) == PlanAfter(old(plan), |data|)
        decreases |data| - sent
      {
        var n := Send(data[sent..]);
        if n <= 0 {
          return false, sent;
        }
        assert data[..sent] + data[sent..][..n] == data[..sent + n];
        sent := sent + n;
      }
      ok := true;
    }

    /** send_framed: the whole frame, or after an error the beginning of one. */
    method SendFramed(message: seq<byte>) returns (code: int, ghost sent: nat)
      modifies this
      ensures sent <= |Frame(message)| && wire == old(wire) + Frame(message)[..sent]
      ensures code == if sent == |Frame(message)| then 0 else -1
      ensures code == 0 <==> FrameGoes(old(plan), |message|)
    {
      var prefix := Prefix(|message|);
      var ok;
      var k;
      ok, k := SendAll(prefix);
      if !ok {
        assert Frame(message)[..k] == prefix[..k];
        return -1, k;
      }
      var j;
      ok, j := SendAll(message);
      assert Frame(message)[..PREFIX + j] == prefix[..k] + message[..j];
      return if ok then 0 else -1, PREFIX + j;
    }
  }

  // ----- Receiving -----

  /** The bytes asked for before a recv that gets none, all of them, and as far as there is surely room for them. */
  function Asked(sizes: seq<nat>): nat {
    if sizes == [] || sizes[0] == 0 then 0 else sizes[0] + Asked(sizes[1..])
  }

  function SurelyTaken(sizes: seq<nat>): nat {
    if sizes == [] || sizes[0] == 0 then 0
    else (if sizes[0] <= 4093 then sizes[0] else 4093) + SurelyTaken(sizes[1..])
  }

  /** Up to 4093 bytes at a time there is always room. */
  lemma {:induction false} RoomForAll(sizes: seq<nat>)
    requires forall i :: 0 <= i < |sizes| ==> sizes[i] <= 4093
    ensures SurelyTaken(sizes) == Asked(sizes)
  {
    if sizes != [] {
      RoomForAll(sizes[1..]);
    }
  }

  /** One recv: as much as was asked for, is there, and fits behind what is waiting in the buffer of 8192 bytes. */
  function Taken(size: nat, available: nat, waiting: nat): nat
    requires waiting <= 8192
  {
    if size <= available && size <= 8192 - waiting then size
    else if available <= 8192 - waiting then available else 8192 - waiting
  }

  /** How far a stream is received: until a recv gets nothing, the stream ends, or a bad length has arrived. */
  function Reads(stream: seq<byte>, r: nat, sizes: seq<nat>): nat
    requires r <= |stream|
    decreases |sizes|
  {
    if sizes == [] || sizes[0] == 0 || r == |stream| || Split(stream[..r]).closed then r
    else Reads(stream, r + Taken(sizes[0], |stream| - r, |Split(stream[..r]).rest|), sizes[1..])
  }

  /** Never more than was asked for, and unless the stream ends or is closed there, all there is surely room for. */
  lemma {:induction false} ReadsBounds(stream: seq<byte>, r: nat, sizes: seq<nat>)
    requires r <= |stream|
    ensures var end := Reads(stream, r, sizes);
            && r <= end <= |stream| && end <= r + Asked(sizes)
            && (Split(stream[..end]).closed || end == |stream| || end >= r + SurelyTaken(sizes))
    decreases |sizes|
  {
    hide Split;
    if sizes != [] && sizes[0] > 0 && r < |stream| && !Split(stream[..r]).closed {
      ReadsBounds(stream, r + Taken(sizes[0], |stream| - r, |Split(stream[..r]).rest|), sizes[1..]);
    }
  }

  /** One connection: the accumulation buffer of client_thread and the messages it has dispatched. */
  class Client {
    const acc: array<byte>
    var accLen: nat
    var dispatched: seq<seq<byte>>

    constructor ()
      ensures Valid() && accLen == 0 && dispatched == [] && fresh(acc)
    {
      acc := new byte[RECV_BUF_SIZE * 2];
      accLen, dispatched := 0, [];
    }

    ghost predicate Valid()
      reads this
    {
      acc.Length == RECV_BUF_SIZE * 2 && accLen <= acc.Length
    }

    ghost function Buffered(): seq<byte>
      requires Valid()
      reads this, acc
    {
      acc[..accLen]
    }

    /** recv: up to `n` of the bytes that are there, and never none: the caller must have room. */
    method Recv(available: seq<byte>, n: nat) returns (got: nat)
      requires Valid() && accLen < acc.Length && available != [] && n > 0
      modifies this`accLen, acc
      ensures Valid() && 0 < got <= |available| && Buffered() == old(Buffered()) + available[..got]
      ensures got <= n && (got == n || got == |available| || got == acc.Length - old(accLen))
    {
      got := if n <= |available| then n else |available|;
      got := if got <= acc.Length - accLen then got else acc.Length - accLen;
      forall i | 0 <= i < got {
        acc[accLen + i] := available[i];
      }
      accLen := accLen + got;
    }

    /** The length prefix at the front of the buffer. */
    method Length() returns (length: nat)
      requires Valid() && accLen >= PREFIX
      ensures length == PrefixValue(Buffered())
    {
      length := acc[0] as int + 256 * (acc[1] as int) + 65536 * (acc[2] as int) + 16777216 * (acc[3] as int);
      PrefixIs(Buffered());
    }

    method Message(length: nat) returns (message: seq<byte>)
      requires Valid() && accLen >= PREFIX + length
      ensures message == Buffered()[PREFIX..PREFIX + length]
    {
      message := acc[PREFIX..PREFIX + length];
      forall i | 0 <= i < length ensures message[i] == Buffered()[PREFIX + i] {
      }
    }

    /** memmove: the message at the front leaves the buffer. */
    method Consume(consumed: nat)
      requires Valid() && consumed <= accLen
      modifies this`accLen, acc
      ensures Valid() && Buffered() == old(Buffered())[consumed..]
    {
      forall i | 0 <= i < accLen - consumed {
        acc[i] := acc[consumed + i];
      }
      accLen := accLen - consumed;
    }

    /** The inner loop of client_thread: dispatch what is complete; false when a length is out of range. */
    method Process() returns (ok: bool)
      requires Valid()
      modifies this`accLen, this`dispatched, acc
      ensures Valid()
      ensures var r := Split(old(Buffered()));
              && dispatched == old(dispatched) + r.messages
              && ok == !r.closed
              && Buffered() == r.rest
    {
      hide Split, PrefixValue;
      ghost var all := Split(Buffered());
      ghost var before := dispatched;
      ghost var done: seq<seq<byte>> := [];
      while accLen >= PREFIX
        invariant Valid() && dispatched == before + done
        invariant var r := Split(Buffered()); all == Received(done + r.messages, r.rest, r.closed)
        decreases accLen
      {
        ghost var s := Buffered();
        var length := Length();
        SplitStep(s);
        if length == 0 || length > RECV_BUF_SIZE {
          return false;
        }
        if accLen < PREFIX + length {
          break;
        }
        var message := Message(length);
        dispatched := dispatched + [message];
        done := done + [s[PREFIX..PREFIX + length]];
        Consume(PREFIX + length);
      }
      SplitStep(Buffered());
      ok := true;
    }

    /**
     * client_thread: the stream arrives in pieces of at most the given sizes, and the loop ends when they run
     * out or a length is bad. What was dispatched is what the bytes received denote; the buffer never fills up.
     */
    method Serve(stream: seq<byte>, sizes: seq<nat>) returns (received: nat, closed: bool)
      requires Valid() && accLen == 0 && dispatched == []
      modifies this`accLen, this`dispatched, acc
      ensures received <= |stream| && Split(stream[..received]).closed == closed
      ensures dispatched == Split(stream[..received]).messages
      ensures received == |stream| || closed ==> dispatched == Split(stream).messages
      ensures received == Reads(stream, 0, sizes)
    {
      hide Split;
      received, closed := 0, false;
      var i := 0;
      assert stream[..0] == [];
      SplitStep([]);
      while i < |sizes| && sizes[i] > 0 && received < |stream|
        invariant Valid() && received <= |stream| && i <= |sizes|
        invariant Split(stream[..received]) == Received(dispatched, Buffered(), false)
        invariant Reads(stream, received, sizes[i..]) == Reads(stream, 0, sizes)
        decreases |sizes| - i
      {
        ghost var rest := Buffered();
        assert sizes[i..][1..] == sizes[i + 1..] && |Split(stream[..received]).rest| < PREFIX + RECV_BUF_SIZE;
        var got := Recv(stream[received..], sizes[i]);
        ghost var chunk := stream[received..][..got];
        Continued(stream, received, got);
        SplitAppend(stream[..received], chunk);
        received := received + got;
        var ok := Process();
        if !ok {
          closed := true;
          SplitAppend(stream[..received], stream[received..]);
          assert stream[..received] + stream[received..] == stream;
          return;
        }
        i := i + 1;
      }
      assert received == |stream| ==> stream[..received] == stream;
    }
  }

  /** The bytes received so far and the next ones. */
  lemma Continued(stream: seq<byte>, received: nat, got: nat)
    requires received + got <= |stream|
    ensures stream[..received + got] == stream[..received] + stream[received..][..got]
  {
  }
}
