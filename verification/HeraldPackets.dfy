/** Packets by their octets: what herald writes where, and what it makes of any packet of questions or records. */
module HeraldPackets {
  import opened Bytes
  import opened HeraldNames
  import opened HeraldDecoding
  import opened HeraldServer
  import opened HeraldClient
  import opened HeraldExchange

  // ----- Names and numbers -----

  /** A compression pointer is two octets whose low 14 bits are the offset. */
  lemma OffsetExact(c: byte, d: byte)
    requires c >= 0xc0
    ensures Offset(c, d) == (0x100 * c as int + d) % 0x4000
  {
  }

  /** Labels are joined with dots, and written with a length octet in front of each and a zero behind the last. */
  lemma LabelOctets(first: seq<byte>, rest: seq<seq<byte>>)
    requires 1 <= |first| <= 63
    ensures Join([first]) == first && (rest != [] ==> Join([first] + rest) == first + ['.' as int] + Join(rest))
    ensures Wire([]) == [0] && Wire([first] + rest) == [|first|] + first + Wire(rest)
  {
    JoinStep(first, []);
    JoinStep(first, rest);
    WireStep(first, rest);
    assert [first] + [] == [first];
  }

  /** Names are compared letter by letter, without regard to case. */
  function Fold(c: byte): byte {
    if 'A' as int <= c <= 'Z' as int then c + 32 else c
  }

  lemma SameTextExact(s: seq<byte>, t: seq<byte>)
    ensures |Lower(s)| == |s| && forall i :: 0 <= i < |s| ==> Lower(s)[i] == Fold(s[i])
    ensures SameText(s, t) <==> |s| == |t| && forall i :: 0 <= i < |s| ==> Fold(s[i]) == Fold(t[i])
  {
    LowerFolds(s);
    LowerFolds(t);
    if |s| == |t| && forall i :: 0 <= i < |s| ==> Fold(s[i]) == Fold(t[i]) {
      assert Lower(s) == Lower(t);
    }
  }

  lemma {:induction false} LowerFolds(s: seq<byte>)
    ensures |Lower(s)| == |s| && forall i :: 0 <= i < |s| ==> Lower(s)[i] == Fold(s[i])
  {
    if s != [] {
      LowerFolds(s[1..]);
    }
  }

  /** A 16-bit number, the high octet first. */
  function Two(n: uint16): seq<byte> {
    [n / 0x100, n % 0x100]
  }

  lemma TwoIs(n: uint16)
    ensures Be16(n) == Two(n)
  {
  }

  lemma TwoRead(buf: seq<byte>, pos: nat, n: uint16)
    requires Holds(buf, pos, Two(n))
    ensures pos + 2 <= |buf| && Get16(buf, pos) == n
  {
    assert buf[pos + 0] == Two(n)[0] && buf[pos + 1] == Two(n)[1];
  }

  // ----- Questions -----

  datatype Question = Question(name: seq<byte>, kind: uint16, class_: uint16)

  /** Section 4.1.2 of RFC 1035: name, type and class. */
  function QuestionOctets(q: Question): seq<byte> {
    Encoded(q.name) + Two(q.kind) + Two(q.class_)
  }

  function QuestionsOctets(qs: seq<Question>): seq<byte> {
    if qs == [] then [] else QuestionOctets(qs[0]) + QuestionsOctets(qs[1..])
  }

  ghost predicate GoodQuestions(qs: seq<Question>) {
    forall i :: 0 <= i < |qs| ==> WellFormed(qs[i].name)
  }

  /** What the server has for a question: types 12, 33 and 1, or 255 for any; the service's name comes first. */
  function Answer(q: Question, ctx: Context): Match {
    if SameText(q.name, ctx.service) then if q.kind in {12, 255} then MatchPtr else MatchNone
    else if SameText(q.name, ctx.instance) then if q.kind in {33, 255} then MatchSrv else MatchNone
    else if SameText(q.name, ctx.hostname) && q.kind in {1, 255} then MatchA
    else MatchNone
  }

  /** The answer to the last of the questions the server has one for. */
  ghost predicate LastAnswer(qs: seq<Question>, ctx: Context, m: Match) {
    if m == MatchNone then forall i :: 0 <= i < |qs| ==> Answer(qs[i], ctx) == MatchNone
    else exists i :: 0 <= i < |qs| && Answer(qs[i], ctx) == m
                     && forall j :: i < j < |qs| ==> Answer(qs[j], ctx) == MatchNone
  }

  /** The header of a packet with so many questions and records. */
  predicate HeaderOf(h: seq<byte>, response: bool, questions: uint16, answers: uint16, authorities: uint16,
      additional: uint16)
  {
    && |h| == 12 && (response <==> h[2] >= 0x80) && h[4..6] == Two(questions) && h[6..8] == Two(answers)
    && h[8..10] == Two(authorities) && h[10..12] == Two(additional)
  }

  lemma HeaderRead(h: seq<byte>, rest: seq<byte>, response: bool, questions: uint16, answers: uint16,
      authorities: uint16, additional: uint16)
    requires HeaderOf(h, response, questions, answers, authorities, additional)
    ensures var buf := h + rest;
            && Get16(buf, 4) == questions && Get16(buf, 6) == answers && Get16(buf, 8) == authorities
            && Get16(buf, 10) == additional && (Get16(buf, 2) >= 0x8000 <==> response)
            && Records(buf) == answers + authorities + additional
  {
    assert h[4..6][0] == h[4] && h[4..6][1] == h[5] && h[6..8][0] == h[6] && h[6..8][1] == h[7];
    assert h[8..10][0] == h[8] && h[8..10][1] == h[9] && h[10..12][0] == h[10] && h[10..12][1] == h[11];
  }

  lemma QuestionRead(buf: seq<byte>, pos: nat, q: Question)
    requires WellFormed(q.name) && Holds(buf, pos, QuestionOctets(q))
    ensures var end := pos + |Encoded(q.name)|;
            && Decode(buf, pos) == Decoded(end, q.name, true) && CString(q.name) == q.name
            && end + 4 <= |buf| && Get16(buf, end) == q.kind && pos + |QuestionOctets(q)| == end + 4
  {
    hide Decode, Encoded, WellFormed, Holds, Get16, CString, Two;
    HoldsParts(buf, pos, Encoded(q.name) + Two(q.kind), Two(q.class_));
    HoldsParts(buf, pos, Encoded(q.name), Two(q.kind));
    NameParses(buf, pos, q.name);
    TwoLong(q.kind);
    TwoLong(q.class_);
    TwoRead(buf, pos + |Encoded(q.name)|, q.kind);
    TwoRead(buf, pos + |Encoded(q.name)| + 2, q.class_);
  }

  lemma TwoLong(n: uint16)
    ensures |Two(n)| == 2
  {
  }

  lemma {:induction false} QuestionsClassified(buf: seq<byte>, ctx: Context, pos: nat, qs: seq<Question>, best: Match)
    requires GoodQuestions(qs) && Holds(buf, pos, QuestionsOctets(qs))
    ensures var m := ClassifyFrom(buf, ctx, pos, |qs|, best);
            if LastAnswer(qs, ctx, MatchNone) then m == best else m != MatchNone && LastAnswer(qs, ctx, m)
    decreases |qs|
  {
    hide Decode, WellFormed, Holds, SameText, QuestionOctets, Get16, CString, Encoded;
    if qs != [] {
      var q, rest := qs[0], qs[1..];
      HoldsParts(buf, pos, QuestionOctets(q), QuestionsOctets(rest));
      QuestionRead(buf, pos, q);
      var next := pos + |QuestionOctets(q)|;
      var found := if Answer(q, ctx) == MatchNone then best else Answer(q, ctx);
      QuestionsClassified(buf, ctx, next, rest, found);
      assert Asked(ctx, q.name, q.kind, best) == found;
      assert ClassifyFrom(buf, ctx, pos, |qs|, best) == ClassifyFrom(buf, ctx, next, |rest|, found);
      LastOfMore(qs, ctx);
    }
  }

  lemma LastOfMore(qs: seq<Question>, ctx: Context)
    requires qs != []
    ensures LastAnswer(qs, ctx, MatchNone)
        <==> Answer(qs[0], ctx) == MatchNone && LastAnswer(qs[1..], ctx, MatchNone)
    ensures forall m :: m != MatchNone && LastAnswer(qs[1..], ctx, m) ==> LastAnswer(qs, ctx, m)
    ensures LastAnswer(qs[1..], ctx, MatchNone) ==> LastAnswer(qs, ctx, Answer(qs[0], ctx))
  {
    hide Answer;
    var rest := qs[1..];
    assert forall j :: 0 < j < |qs| ==> qs[j] == rest[j - 1];
    forall m | m != MatchNone && LastAnswer(rest, ctx, m) ensures LastAnswer(qs, ctx, m) {
      var i :| 0 <= i < |rest| && Answer(rest[i], ctx) == m
        && forall j :: i < j < |rest| ==> Answer(rest[j], ctx) == MatchNone;
      assert Answer(qs[i + 1], ctx) == m;
    }
  }

  /**
   * A query of any questions with well-formed names, whatever stands behind them: the result is the answer to the
   * last question the server has one for, and none if there is no such question. A response gets none, nor does
   * a packet shorter than a header.
   */
  lemma QuestionsMatched(h: seq<byte>, qs: seq<Question>, rest: seq<byte>, ctx: Context, response: bool, an: uint16,
      ns: uint16, ar: uint16)
    requires |qs| < 0x1_0000 && HeaderOf(h, response, |qs|, an, ns, ar) && GoodQuestions(qs)
    ensures var m := Classify(h + QuestionsOctets(qs) + rest, ctx);
            if response then m == MatchNone else LastAnswer(qs, ctx, m)
  {
    hide QuestionsOctets, ClassifyFrom, Get16, HeaderOf, Answer;
    var buf := h + QuestionsOctets(qs) + rest;
    HeaderLong(h, response, |qs|, an, ns, ar);
    HeaderRead(h, QuestionsOctets(qs) + rest, response, |qs|, an, ns, ar);
    assert buf == h + (QuestionsOctets(qs) + rest);
    HoldsAt(h, QuestionsOctets(qs), rest);
    QuestionsClassified(buf, ctx, 12, qs, MatchNone);
  }

  lemma HeaderLong(h: seq<byte>, response: bool, questions: uint16, an: uint16, ns: uint16, ar: uint16)
    requires HeaderOf(h, response, questions, an, ns, ar)
    ensures |h| == 12
  {
  }

  /** One question: which answer it gets, number by number. */
  lemma OneQuestionMatched(h: seq<byte>, q: Question, rest: seq<byte>, ctx: Context, an: uint16, ns: uint16, ar: uint16)
    requires HeaderOf(h, false, 1, an, ns, ar) && WellFormed(q.name)
    ensures var m := Classify(h + QuestionOctets(q) + rest, ctx);
            var service, instance, hostname :=
              SameText(q.name, ctx.service), SameText(q.name, ctx.instance), SameText(q.name, ctx.hostname);
            && (m == MatchPtr <==> service && (q.kind == 12 || q.kind == 255))
            && (m == MatchSrv <==> !service && instance && (q.kind == 33 || q.kind == 255))
            && (m == MatchA <==> !service && !instance && hostname && (q.kind == 1 || q.kind == 255))
  {
    hide Classify, SameText, HeaderOf, QuestionOctets, WellFormed;
    assert QuestionsOctets([q]) == QuestionOctets(q) by {
      assert [q][1..] == [] && QuestionsOctets([]) == [];
    }
    QuestionsMatched(h, [q], rest, ctx, false, an, ns, ar);
    assert [q][0] == q;
  }

  lemma ShortPacket(buf: seq<byte>, ctx: Context)
    ensures |buf| < 12 || buf[2] >= 0x80 ==> Classify(buf, ctx) == MatchNone
  {
    hide ClassifyFrom;
  }

  // ----- Records by their octets -----

  /** Section 4.1.3 of RFC 1035: owner, type, class, time to live, length and data. */
  lemma RecordOctets(owner: seq<byte>, kind: uint16, class_: uint16, ttl: uint32, data: seq<byte>)
    requires |data| < 0x1_0000
    ensures Record(owner, kind, class_, ttl, data)
         == Encoded(owner) + Two(kind) + Two(class_) + Two(ttl / 0x1_0000) + Two(ttl % 0x1_0000) + Two(|data|) + data
  {
    hide Encoded, Be16, Be32, Two;
    TwoIs(kind);
    TwoIs(class_);
    TwoIs(|data|);
    FourIs(ttl);
    var e, k, c, n := Encoded(owner), Two(kind), Two(class_), Two(|data|);
    var u, v := Two(ttl / 0x1_0000), Two(ttl % 0x1_0000);
    assert e + (k + c + (u + v)) + n + data == e + k + c + u + v + n + data;
  }

  lemma FourIs(n: uint32)
    ensures Be32(n) == Two(n / 0x1_0000) + Two(n % 0x1_0000)
  {
    var high, low := n / 0x1_0000, n % 0x1_0000;
    assert n / 0x100_0000 == high / 0x100 && n / 0x100_0000 < 0x100;
    assert n / 0x100 == 0x100 * high + low / 0x100;
  }

  /** The four records of a response: types 12, 33, 16 and 1; class 1, with the cache-flush bit on all but the first. */
  lemma ResponseOctets(ctx: Context, ttl: uint32)
    requires Fits(ctx)
    ensures Response(ctx, ttl) == [0, 0, 0x84, 0, 0, 0, 0, 4, 0, 0, 0, 0]
        + Record(ctx.service, 12, 1, ttl, Encoded(ctx.instance))
        + Record(ctx.instance, 33, 0x8001, ttl, [0, 0, 0, 0] + Two(ctx.port) + Encoded(ctx.hostname))
        + Record(ctx.instance, 16, 0x8001, ttl, [|ctx.txt|] + ctx.txt)
        + Record(ctx.hostname, 1, 0x8001, ttl, ctx.ipv4)
  {
    hide Encoded, Record;
    TwoIs(ctx.port);
    assert SrvData(ctx) == [0, 0, 0, 0] + Two(ctx.port) + Encoded(ctx.hostname);
  }

  /** The query: one question, of type 12, with the bit that asks for a unicast answer. */
  lemma QueryOctets(service: seq<byte>)
    ensures Query(service) == [0, 0, 0, 0, 0, 1, 0, 0, 0, 0, 0, 0] + Encoded(service) + [0, 12, 0x80, 1]
  {
    hide Encoded;
  }

  // ----- Any response -----

  /** A record of any of the types the client reads, or of another one. */
  datatype Rr =
    | Ptr(owner: seq<byte>, instance: seq<byte>)
    | Srv(owner: seq<byte>, priority: uint16, weight: uint16, port: uint16, target: seq<byte>)
    | Addr(owner: seq<byte>, ip: seq<byte>)
    | Other(owner: seq<byte>, kind: uint16, data: seq<byte>)

  function KindOf(r: Rr): uint16 {
    match r
    case Ptr(_, _) => 12
    case Srv(_, _, _, _, _) => 33
    case Addr(_, _) => 1
    case Other(_, kind, _) => kind
  }

  function DataOf(r: Rr): seq<byte> {
    match r
    case Ptr(_, instance) => Encoded(instance)
    case Srv(_, priority, weight, port, target) => Two(priority) + Two(weight) + Two(port) + Encoded(target)
    case Addr(_, ip) => ip
    case Other(_, _, data) => data
  }

  function RrOctets(r: Rr, class_: uint16, ttl: uint32): seq<byte> {
    Record(r.owner, KindOf(r), class_, ttl, DataOf(r))
  }

  ghost predicate GoodRr(r: Rr) {
    && WellFormed(r.owner)
    && match r
       case Ptr(_, instance) => WellFormed(instance)
       case Srv(_, _, _, _, target) => WellFormed(target)
       case Addr(_, ip) => |ip| == 4
       case Other(_, kind, data) =>
         |data| < 0x1_0000 && kind != 12 && kind != 33 && kind != 1
  }

  datatype Line = Line(r: Rr, class_: uint16, ttl: uint32)

  function LinesOctets(lines: seq<Line>): seq<byte> {
    if lines == [] then []
    else RrOctets(lines[0].r, lines[0].class_, lines[0].ttl) + LinesOctets(lines[1..])
  }

  ghost predicate GoodLines(lines: seq<Line>) {
    forall i :: 0 <= i < |lines| ==> GoodRr(lines[i].r)
  }

  /** What the client learns from a record. */
  function Learn(devices: seq<Device>, r: Rr): seq<Device>
    requires r.Addr? ==> |r.ip| == 4
  {
    match r
    case Ptr(_, instance) => Register(devices, instance)
    case Srv(owner, _, _, port, target) => SetService(devices, owner, target, port)
    case Addr(owner, ip) => SetAddress(devices, owner, Address(ip))
    case Other(_, _, _) => devices
  }

  ghost function LearnAll(devices: seq<Device>, lines: seq<Line>): seq<Device>
    requires GoodLines(lines)
    decreases |lines|
  {
    if lines == [] then devices else LearnAll(Learn(devices, lines[0].r), lines[1..])
  }

  lemma DataFits(r: Rr)
    requires GoodRr(r)
    ensures |DataOf(r)| < 0x1_0000
  {
  }

  lemma RrRead(buf: seq<byte>, pos: nat, l: Line, devices: seq<Device>, stale: seq<byte>)
    requires GoodRr(l.r) && Holds(buf, pos, RrOctets(l.r, l.class_, l.ttl)) && |stale| == 256
    ensures ParseRecord(buf, pos, devices, stale)
         == Parsed(pos + |RrOctets(l.r, l.class_, l.ttl)|, Learn(devices, l.r))
    ensures |RrOctets(l.r, l.class_, l.ttl)| > 0 && pos + |RrOctets(l.r, l.class_, l.ttl)| <= |buf|
  {
    hide Decode, Holds, Record, Encoded, WellFormed, Register, SetService, SetAddress, Address, ParseRecord, Noted, Two;
    hide DataOf;
    var r := l.r;
    DataFits(r);
    RecordParsed(buf, pos, r.owner, KindOf(r), l.class_, l.ttl, DataOf(r), devices, stale);
    RecordLong(r.owner, KindOf(r), l.class_, l.ttl, DataOf(r));
    RrNoted(buf, r, pos + |RrOctets(r, l.class_, l.ttl)| - |DataOf(r)|, devices, stale);
  }

  lemma RecordLong(owner: seq<byte>, kind: nat, class_: nat, ttl: uint32, data: seq<byte>)
    ensures |Record(owner, kind, class_, ttl, data)| >= 10
  {
    hide Encoded;
  }

  lemma RrNoted(buf: seq<byte>, r: Rr, data: nat, devices: seq<Device>, stale: seq<byte>)
    requires GoodRr(r) && Holds(buf, data, DataOf(r)) && data + |DataOf(r)| <= |buf| && |stale| == 256
    ensures |DataOf(r)| < 0x1_0000
    ensures Noted(buf, r.owner, KindOf(r), |DataOf(r)|, data, devices, stale) == Learn(devices, r)
  {
    hide Holds, Encoded, Decode, WellFormed, Register, SetService, SetAddress, Address, Two, Noted;
    DataFits(r);
    match r
    case Ptr(owner, instance) => PtrNoted(buf, owner, data, instance, devices, stale);
    case Srv(owner, priority, weight, port, target) => ServiceNoted(buf, r, data, devices, stale);
    case Addr(owner, ip) => ANoted(buf, owner, data, ip, devices, stale);
    case Other(owner, kind, d) => OtherNoted(buf, owner, kind, |d|, data, devices, stale);
  }

  lemma OtherNoted(buf: seq<byte>, owner: seq<byte>, kind: uint16, length: uint16, data: nat, devices: seq<Device>,
      stale: seq<byte>)
    requires kind != 12 && kind != 33 && kind != 1 && |stale| == 256 && data + length <= |buf|
    ensures Noted(buf, owner, kind, length, data, devices, stale) == devices
  {
  }

  lemma ServiceNoted(buf: seq<byte>, r: Rr, data: nat, devices: seq<Device>, stale: seq<byte>)
    requires r.Srv? && GoodRr(r) && Holds(buf, data, DataOf(r)) && data + |DataOf(r)| <= |buf| && |stale| == 256
    requires |DataOf(r)| < 0x1_0000
    ensures Noted(buf, r.owner, 33, |DataOf(r)|, data, devices, stale)
         == SetService(devices, r.owner, r.target, r.port)
  {
    hide Holds, Encoded, Decode, WellFormed, CString, SetService, Two, Get16, Written;
    EncodedSize(r.target);
    TwoLong(r.priority);
    TwoLong(r.weight);
    TwoLong(r.port);
    HoldsParts(buf, data, Two(r.priority) + Two(r.weight) + Two(r.port), Encoded(r.target));
    HoldsParts(buf, data, Two(r.priority) + Two(r.weight), Two(r.port));
    TwoRead(buf, data + 4, r.port);
    NameParses(buf, data + 6, r.target);
    TerminatedText(Decode(buf, data + 6), stale);
    WellFormedShort(r.target);
  }

  lemma WellFormedShort(name: seq<byte>)
    requires WellFormed(name)
    ensures |name| <= 255
  {
    hide Labels, Wire, ShortLabels, LabelLength;
    JoinLabels(name);
    JoinedFits(Labels(name));
  }

  lemma {:induction false} LinesRead(buf: seq<byte>, pos: nat, lines: seq<Line>, devices: seq<Device>, stale: seq<byte>)
    requires GoodLines(lines) && Holds(buf, pos, LinesOctets(lines)) && pos > 0 && |stale| == 256
    ensures ParseRecords(buf, pos, |lines|, devices, stale) == LearnAll(devices, lines)
    decreases |lines|
  {
    hide Holds, ParseRecord, RrOctets, Learn, WellFormed;
    if lines != [] {
      var l := lines[0];
      HoldsParts(buf, pos, RrOctets(l.r, l.class_, l.ttl), LinesOctets(lines[1..]));
      RrRead(buf, pos, l, devices, stale);
      LinesRead(buf, pos + |RrOctets(l.r, l.class_, l.ttl)|, lines[1..], Learn(devices, l.r), stale);
    }
  }

  lemma {:induction false} LinesMention(buf: seq<byte>, pos: nat, lines: seq<Line>, name: seq<byte>)
    requires GoodLines(lines) && Holds(buf, pos, LinesOctets(lines))
    ensures Mentions(buf, pos, |lines|, name)
        <==> exists i :: 0 <= i < |lines| && SameText(lines[i].r.owner, name)
    decreases |lines|
  {
    hide Holds, RrOctets, GoodRr, SameText, Mentions;
    if lines == [] {
      NoneLeft(buf, pos, name);
    } else {
      var l, rest := lines[0], lines[1..];
      HoldsParts(buf, pos, RrOctets(l.r, l.class_, l.ttl), LinesOctets(rest));
      RrMentions(buf, pos, l, |lines|, name);
      LinesMention(buf, pos + |RrOctets(l.r, l.class_, l.ttl)|, rest, name);
      assert forall i :: 0 < i < |lines| ==> lines[i] == rest[i - 1];
      if i :| 0 <= i < |rest| && SameText(rest[i].r.owner, name) {
        assert SameText(lines[i + 1].r.owner, name);
      }
    }
  }

  lemma RrMentions(buf: seq<byte>, pos: nat, l: Line, left: nat, name: seq<byte>)
    requires GoodRr(l.r) && Holds(buf, pos, RrOctets(l.r, l.class_, l.ttl)) && left > 0
    ensures Mentions(buf, pos, left, name)
        <==> SameText(l.r.owner, name) || Mentions(buf, pos + |RrOctets(l.r, l.class_, l.ttl)|, left - 1, name)
  {
    hide Holds, SameText, Mentions, Record, WellFormed, DataOf;
    DataFits(l.r);
    RecordMentions(buf, pos, l.r.owner, KindOf(l.r), l.class_, l.ttl, DataOf(l.r), left, name);
  }

  lemma {:induction false} QuestionsSkipped(buf: seq<byte>, pos: nat, qs: seq<Question>)
    requires GoodQuestions(qs) && Holds(buf, pos, QuestionsOctets(qs))
    ensures SkipQuestions(buf, pos, |qs|) == Some(pos + |QuestionsOctets(qs)|)
    decreases |qs|
  {
    hide Decode, WellFormed, Holds, QuestionOctets;
    if qs != [] {
      HoldsParts(buf, pos, QuestionOctets(qs[0]), QuestionsOctets(qs[1..]));
      QuestionRead(buf, pos, qs[0]);
      QuestionsSkipped(buf, pos + |QuestionOctets(qs[0])|, qs[1..]);
    }
  }

  /**
   * A response of any questions and records with well-formed names, counted together in its header, whatever
   * stands behind them: the client learns each record in its turn, and while probing it is a conflict exactly
   * when some record is owned by that name. From a query the client learns nothing.
   */
  lemma PacketRead(h: seq<byte>, qs: seq<Question>, lines: seq<Line>, rest: seq<byte>, response: bool, an: uint16,
      ns: uint16, ar: uint16, devices: seq<Device>, name: seq<byte>, stale: seq<byte>)
    requires |qs| < 0x1_0000 && HeaderOf(h, response, |qs|, an, ns, ar) && an + ns + ar == |lines|
    requires GoodQuestions(qs) && GoodLines(lines) && |stale| == 256
    ensures var buf := h + QuestionsOctets(qs) + LinesOctets(lines) + rest;
            && ParsePacket(buf, devices, stale) == (if response then LearnAll(devices, lines) else devices)
            && (ResponseContains(buf, name) <==> exists i :: 0 <= i < |lines| && SameText(lines[i].r.owner, name))
  {
    hide QuestionsOctets, LinesOctets, ParseRecords, Mentions, SkipQuestions, Get16, HeaderOf, LearnAll, SameText;
    hide GoodQuestions, GoodLines, Records;
    var q, l := QuestionsOctets(qs), LinesOctets(lines);
    var buf := h + q + l + rest;
    HeaderLong(h, response, |qs|, an, ns, ar);
    HeaderRead(h, q + l + rest, response, |qs|, an, ns, ar);
    assert buf == h + (q + l + rest) && buf == h + q + (l + rest);
    HoldsAt(h, q, l + rest);
    HoldsAt(h + q, l, rest);
    QuestionsSkipped(buf, 12, qs);
    LinesRead(buf, 12 + |q|, lines, devices, stale);
    LinesMention(buf, 12 + |q|, lines, name);
  }

  /** The decimal text of an octet: digits, the first of them not a zero unless it is the only one. */
  lemma DecimalExact(b: byte)
    ensures var t := Decimal(b);
            && DecimalValue(t) == b && (forall i :: 0 <= i < |t| ==> '0' as int <= t[i] <= '9' as int)
            && (|t| > 1 ==> t[0] != '0' as int)
  {
    hide DecimalValue;
    DecimalReads(b);
  }

  /** An address is the decimal texts of its octets in their order, with dots between them. */
  lemma AddressText(ip: seq<byte>)
    requires |ip| == 4
    ensures Address(ip)
         == Decimal(ip[0]) + ['.' as int] + Decimal(ip[1]) + ['.' as int] + Decimal(ip[2]) + ['.' as int]
            + Decimal(ip[3])
  {
    hide Decimal;
  }

  // ----- The table of devices -----

  /** A device is added when no device of that name is known and fewer than 64 are. */
  lemma RegisterExact(devices: seq<Device>, name: seq<byte>)
    requires |name| < 256
    ensures Register(devices, name)
         == if |devices| >= 64 || exists i :: 0 <= i < |devices| && devices[i].name == name then devices
            else devices + [Device(name, [], [], 0, false)]
  {
    FindExact(devices, name);
  }

  lemma {:induction false} FindExact(devices: seq<Device>, name: seq<byte>)
    ensures var k := Find(devices, name);
            && (forall i :: 0 <= i < k ==> devices[i].name != name)
            && (k < |devices| <==> exists i :: 0 <= i < |devices| && devices[i].name == name)
  {
    if devices != [] && devices[0].name != name {
      FindExact(devices[1..], name);
      assert forall i :: 0 < i < |devices| ==> devices[i] == devices[1..][i - 1];
      if i :| 0 <= i < |devices| && devices[i].name == name {
        assert devices[1..][i - 1].name == name;
      }
    }
  }

  /** Host and port go to the first device of the name, which is added if it is missing and there is room. */
  lemma ServiceExact(devices: seq<Device>, name: seq<byte>, target: seq<byte>, port: uint16)
    requires |name| < 256
    ensures var all, now := Register(devices, name), SetService(devices, name, target, port);
            && |now| == |all|
            && forall i :: 0 <= i < |all| ==>
                 now[i] == if all[i].name == name && (forall j :: 0 <= j < i ==> all[j].name != name)
                           then all[i].(target := target, port := port) else all[i]
  {
    hide Register;
    FindExact(Register(devices, name), name);
  }

  /** An address goes to every device of that name or host. */
  lemma {:induction false} AddressExact(devices: seq<Device>, name: seq<byte>, address: seq<byte>)
    ensures var now := SetAddress(devices, name, address);
            && |now| == |devices|
            && forall i :: 0 <= i < |devices| ==>
                 now[i] == if devices[i].target == name || devices[i].name == name
                           then devices[i].(ipv4 := address, hasAddr := true) else devices[i]
  {
    if devices != [] {
      AddressExact(devices[1..], name, address);
    }
  }
}
