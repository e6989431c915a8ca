/** Query, answer and table agree: what one herald program writes, the other one reads. */
module HeraldExchange {
  import opened Bytes
  import opened HeraldNames
  import opened HeraldDecoding
  import opened HeraldServer
  import opened HeraldClient

  predicate Announced(ctx: Context) {
    Fits(ctx) && WellFormed(ctx.service) && WellFormed(ctx.instance) && WellFormed(ctx.hostname)
  }

  lemma HoldsBe16(buf: seq<byte>, pos: nat, v: nat)
    requires Holds(buf, pos, Be16(v)) && v < 0x1_0000
    ensures pos + 2 <= |buf| && Get16(buf, pos) == v
  {
    assert buf[pos + 0] == Be16(v)[0] && buf[pos + 1] == Be16(v)[1];
  }

  lemma NameParses(buf: seq<byte>, pos: nat, name: seq<byte>)
    requires WellFormed(name) && Holds(buf, pos, Encoded(name))
    ensures Decode(buf, pos) == Decoded(pos + |Encoded(name)|, name, true) && CString(name) == name
  {
    hide Decode, Encoded, Holds, Tidy, ShortLabels, Labels;
    WellFormedDecodes(buf, pos, name);
  }

  // ----- A query reaches its service -----

  /** The client's query for the server's service, in whatever case it is spelt, is one for its PTR record. */
  lemma QueryIsMatched(service: seq<byte>, ctx: Context)
    requires WellFormed(service) && SameText(service, ctx.service)
    ensures Classify(Query(service), ctx) == MatchPtr
  {
    hide Decode, CString, Encoded, WellFormed, SameText, Holds;
    var buf, e := Query(service), Encoded(service);
    var tail := [0, TYPE_PTR, 0x80, CLASS_IN];
    var end := HEADER + |e|;
    HoldsAt(QUERY_HEADER, e, tail);
    NameParses(buf, HEADER, service);
    assert buf[end] == tail[0] && buf[end + 1] == tail[1];
    assert Get16(buf, end) == TYPE_PTR;
    assert Get16(buf, 2) == 0 && Get16(buf, 4) == 1;
    assert ClassifyFrom(buf, ctx, HEADER, 1, MatchNone) == Asked(ctx, service, TYPE_PTR, MatchNone);
  }

  lemma HoldsAt(a: seq<byte>, w: seq<byte>, b: seq<byte>)
    ensures Holds(a + w + b, |a|, w)
  {
    forall i | 0 <= i < |w| ensures (a + w + b)[|a| + i] == w[i] {
    }
  }

  // ----- A response fills the table -----

  lemma RecordParts(buf: seq<byte>, pos: nat, owner: seq<byte>, kind: nat, class_: nat, ttl: uint32, data: seq<byte>)
    requires Holds(buf, pos, Record(owner, kind, class_, ttl, data)) && kind < 0x1_0000 && |data| < 0x1_0000
    ensures var n := pos + |Encoded(owner)|;
            && Holds(buf, pos, Encoded(owner)) && Holds(buf, n + 10, data) && n + 10 + |data| <= |buf|
            && Get16(buf, n) == kind && Get16(buf, n + 8) == |data|
            && pos + |Record(owner, kind, class_, ttl, data)| == n + 10 + |data|
  {
    hide Holds, Encoded, Be16, Be32, Get16;
    var e, rest := Encoded(owner), Be16(kind) + Be16(class_) + Be32(ttl);
    HoldsParts(buf, pos, e + rest + Be16(|data|), data);
    HoldsParts(buf, pos, e + rest, Be16(|data|));
    HoldsParts(buf, pos, e, rest);
    HoldsParts(buf, pos + |e|, Be16(kind) + Be16(class_), Be32(ttl));
    HoldsParts(buf, pos + |e|, Be16(kind), Be16(class_));
    HoldsBe16(buf, pos + |e|, kind);
    HoldsBe16(buf, pos + |e| + 8, |data|);
    HoldsSlice(buf, pos + |e| + 10, data);
  }

  /** parse_rr on a record as the server writes it. */
  lemma RecordParsed(buf: seq<byte>, pos: nat, owner: seq<byte>, kind: nat, class_: nat, ttl: uint32, data: seq<byte>,
      devices: seq<Device>, stale: seq<byte>)
    requires Holds(buf, pos, Record(owner, kind, class_, ttl, data)) && kind < 0x1_0000 && |data| < 0x1_0000
    requires WellFormed(owner) && |stale| == MAX_NAME_LEN
    ensures var next := pos + |Record(owner, kind, class_, ttl, data)|;
            && next <= |buf| && next >= pos + |data| && Holds(buf, next - |data|, data)
            && ParseRecord(buf, pos, devices, stale)
              == Parsed(next, Noted(buf, owner, kind, |data|, next - |data|, devices, stale))
  {
    hide Holds, Encoded, Record, Decode, WellFormed, Noted, CString, Get16;
    RecordParts(buf, pos, owner, kind, class_, ttl, data);
    NameParses(buf, pos, owner);
  }

  lemma PtrNoted(buf: seq<byte>, name: seq<byte>, data: nat, instance: seq<byte>, devices: seq<Device>,
      stale: seq<byte>)
    requires WellFormed(instance) && Holds(buf, data, Encoded(instance)) && data + |Encoded(instance)| <= |buf|
    requires |Encoded(instance)| < 0x1_0000 && |stale| == MAX_NAME_LEN
    ensures Noted(buf, name, TYPE_PTR, |Encoded(instance)|, data, devices, stale) == Register(devices, instance)
  {
    hide Holds, Encoded, Decode, WellFormed, CString, Register;
    NameParses(buf, data, instance);
  }

  lemma SrvNoted(buf: seq<byte>, name: seq<byte>, data: nat, ctx: Context, devices: seq<Device>, stale: seq<byte>)
    requires WellFormed(ctx.hostname) && Holds(buf, data, SrvData(ctx)) && data + |SrvData(ctx)| <= |buf|
    requires |SrvData(ctx)| < 0x1_0000 && |stale| == MAX_NAME_LEN && |ctx.hostname| < MAX_NAME_LEN
    ensures Noted(buf, name, TYPE_SRV, |SrvData(ctx)|, data, devices, stale) ==
      SetService(devices, name, ctx.hostname, ctx.port)
  {
    hide Holds, Encoded, Decode, WellFormed, CString, SetService, Be16, Get16, Written;
    EncodedSize(ctx.hostname);
    HoldsParts(buf, data, Be16(0) + Be16(0) + Be16(ctx.port), Encoded(ctx.hostname));
    HoldsParts(buf, data, Be16(0) + Be16(0), Be16(ctx.port));
    HoldsBe16(buf, data + 4, ctx.port);
    NameParses(buf, data + 6, ctx.hostname);
    TerminatedText(Decode(buf, data + 6), stale);
  }

  lemma TxtNoted(buf: seq<byte>, name: seq<byte>, length: uint16, data: nat, devices: seq<Device>, stale: seq<byte>)
    requires |stale| == MAX_NAME_LEN && data + length <= |buf|
    ensures Noted(buf, name, TYPE_TXT, length, data, devices, stale) == devices
  {
  }

  lemma ANoted(buf: seq<byte>, name: seq<byte>, data: nat, ip: seq<byte>, devices: seq<Device>, stale: seq<byte>)
    requires |stale| == MAX_NAME_LEN && |ip| == 4 && Holds(buf, data, ip)
    ensures Noted(buf, name, TYPE_A, 4, data, devices, stale) == SetAddress(devices, name, Address(ip))
  {
    hide Address, SetAddress;
    HoldsSlice(buf, data, ip);
  }

  lemma HoldsFour(h: seq<byte>, p: seq<byte>, s: seq<byte>, t: seq<byte>, a: seq<byte>)
    ensures var buf := h + p + s + t + a;
            && Holds(buf, |h|, p) && Holds(buf, |h| + |p|, s) && Holds(buf, |h| + |p| + |s|, t)
            && Holds(buf, |h| + |p| + |s| + |t|, a)
  {
    hide Holds;
    HoldsAt(h, p, s + t + a);
    HoldsAt(h + p, s, t + a);
    HoldsAt(h + p + s, t, a);
    HoldsAt(h + p + s + t, a, []);
    var buf := h + p + s + t + a;
    assert h + p + (s + t + a) == buf && h + p + s + (t + a) == buf && h + p + s + t + a + [] == buf;
  }

  lemma RunFour(buf: seq<byte>, d0: seq<Device>, d1: seq<Device>, d2: seq<Device>, d3: seq<Device>,
      p1: nat, p2: nat, p3: nat, stale: seq<byte>)
    requires |stale| == MAX_NAME_LEN && HEADER < p1 < p2 < p3 < |buf|
    requires ParseRecord(buf, HEADER, d0, stale) == Parsed(p1, d1) && ParseRecord(buf, p1, d1, stale) == Parsed(p2, d2)
    requires ParseRecord(buf, p2, d2, stale) == Parsed(p3, d2) && ParseRecord(buf, p3, d2, stale) == Parsed(|buf|, d3)
    ensures ParseRecords(buf, HEADER, 4, d0, stale) == d3
  {
    hide ParseRecord;
    assert ParseRecords(buf, HEADER, 4, d0, stale) == ParseRecords(buf, p1, 3, d1, stale) ==
        ParseRecords(buf, p2, 2, d2, stale);
    assert ParseRecords(buf, p2, 2, d2, stale) == ParseRecords(buf, p3, 1, d2, stale) == d3;
  }

  lemma PtrParsed(buf: seq<byte>, pos: nat, ctx: Context, ttl: uint32, devices: seq<Device>, stale: seq<byte>)
    requires Announced(ctx) && Holds(buf, pos, PtrRecord(ctx, ttl)) && |stale| == MAX_NAME_LEN
    ensures ParseRecord(buf, pos, devices, stale) ==
        Parsed(pos + |PtrRecord(ctx, ttl)|, Register(devices, ctx.instance))
    ensures |PtrRecord(ctx, ttl)| > 0
  {
    hide Holds, Encoded, Record, Decode, WellFormed, Noted, Register, ParseRecord;
    EncodedSize(ctx.instance);
    RecordParsed(buf, pos, ctx.service, TYPE_PTR, CLASS_IN, ttl, Encoded(ctx.instance), devices, stale);
    PtrNoted(buf, ctx.service, pos + |PtrRecord(ctx, ttl)| - |Encoded(ctx.instance)|, ctx.instance, devices, stale);
  }

  lemma SrvParsed(buf: seq<byte>, pos: nat, ctx: Context, ttl: uint32, devices: seq<Device>, stale: seq<byte>)
    requires Announced(ctx) && Holds(buf, pos, SrvRecord(ctx, ttl)) && |stale| == MAX_NAME_LEN
    ensures ParseRecord(buf, pos, devices, stale) ==
      Parsed(pos + |SrvRecord(ctx, ttl)|, SetService(devices, ctx.instance, ctx.hostname, ctx.port))
    ensures |SrvRecord(ctx, ttl)| > 0
  {
    hide Holds, Encoded, Record, Decode, WellFormed, Noted, SetService, ParseRecord, Be16;
    EncodedSize(ctx.hostname);
    RecordParsed(buf, pos, ctx.instance, TYPE_SRV, CLASS_IN + CLASS_FLUSH, ttl, SrvData(ctx), devices, stale);
    SrvNoted(buf, ctx.instance, pos + |SrvRecord(ctx, ttl)| - |SrvData(ctx)|, ctx, devices, stale);
  }

  lemma TxtParsed(buf: seq<byte>, pos: nat, ctx: Context, ttl: uint32, devices: seq<Device>, stale: seq<byte>)
    requires Announced(ctx) && Holds(buf, pos, TxtRecord(ctx, ttl)) && |stale| == MAX_NAME_LEN
    ensures ParseRecord(buf, pos, devices, stale) == Parsed(pos + |TxtRecord(ctx, ttl)|, devices)
    ensures |TxtRecord(ctx, ttl)| > 0
  {
    hide Holds, Encoded, Record, Decode, WellFormed, Noted, ParseRecord;
    RecordParsed(buf, pos, ctx.instance, TYPE_TXT, CLASS_IN + CLASS_FLUSH, ttl, [|ctx.txt|] + ctx.txt, devices, stale);
    TxtNoted(buf, ctx.instance, |ctx.txt| + 1, pos + |TxtRecord(ctx, ttl)| - |ctx.txt| - 1, devices, stale);
  }

  lemma AParsed(buf: seq<byte>, pos: nat, ctx: Context, ttl: uint32, devices: seq<Device>, stale: seq<byte>)
    requires Announced(ctx) && Holds(buf, pos, ARecord(ctx, ttl)) && |stale| == MAX_NAME_LEN
    ensures ParseRecord(buf, pos, devices, stale) ==
      Parsed(pos + |ARecord(ctx, ttl)|, SetAddress(devices, ctx.hostname, Address(ctx.ipv4)))
    ensures |ARecord(ctx, ttl)| > 0
  {
    hide Holds, Encoded, Record, Decode, WellFormed, Noted, SetAddress, Address, ParseRecord;
    RecordParsed(buf, pos, ctx.hostname, TYPE_A, CLASS_IN + CLASS_FLUSH, ttl, ctx.ipv4, devices, stale);
    ANoted(buf, ctx.hostname, pos + |ARecord(ctx, ttl)| - 4, ctx.ipv4, devices, stale);
  }

  lemma ResponseLayout(ctx: Context, ttl: uint32)
    requires Fits(ctx)
    ensures var buf, p, s, t := Response(ctx, ttl), |PtrRecord(ctx, ttl)|, |SrvRecord(ctx, ttl)|, |TxtRecord(ctx, ttl)|;
            && |buf| == HEADER + p + s + t + |ARecord(ctx, ttl)|
            && Get16(buf, 2) == 0x8400 && Get16(buf, 4) == 0 && Records(buf) == 4
            && Holds(buf, HEADER, PtrRecord(ctx, ttl)) && Holds(buf, HEADER + p, SrvRecord(ctx, ttl))
            && Holds(buf, HEADER + p + s, TxtRecord(ctx, ttl)) && Holds(buf, HEADER + p + s + t, ARecord(ctx, ttl))
  {
    hide Holds, PtrRecord, SrvRecord, TxtRecord, ARecord;
    HoldsFour(RESPONSE_HEADER, PtrRecord(ctx, ttl), SrvRecord(ctx, ttl), TxtRecord(ctx, ttl), ARecord(ctx, ttl));
  }

  lemma PacketIsRecords(buf: seq<byte>, devices: seq<Device>, stale: seq<byte>)
    requires |buf| >= HEADER && |stale| == MAX_NAME_LEN
    requires Get16(buf, 2) == 0x8400 && Get16(buf, 4) == 0 && Records(buf) == 4
    ensures ParsePacket(buf, devices, stale) == ParseRecords(buf, HEADER, 4, devices, stale)
  {
    hide Decode, ParseRecord, ParseRecords;
  }

  /** What a whole response does to any table. */
  lemma ResponseParsed(ctx: Context, ttl: uint32, devices: seq<Device>, stale: seq<byte>)
    requires Announced(ctx) && |stale| == MAX_NAME_LEN
    ensures ParsePacket(Response(ctx, ttl), devices, stale) ==
      SetAddress(SetService(Register(devices, ctx.instance), ctx.instance, ctx.hostname, ctx.port), ctx.hostname,
          Address(ctx.ipv4))
  {
    hide *;
    AnnouncedFits(ctx);
    var buf := Response(ctx, ttl);
    ResponseLayout(ctx, ttl);
    var p1 := HEADER + |PtrRecord(ctx, ttl)|;
    var p2 := p1 + |SrvRecord(ctx, ttl)|;
    var p3 := p2 + |TxtRecord(ctx, ttl)|;
    var d1 := Register(devices, ctx.instance);
    var d2 := SetService(d1, ctx.instance, ctx.hostname, ctx.port);
    PtrParsed(buf, HEADER, ctx, ttl, devices, stale);
    SrvParsed(buf, p1, ctx, ttl, d1, stale);
    TxtParsed(buf, p2, ctx, ttl, d2, stale);
    AParsed(buf, p3, ctx, ttl, d2, stale);
    RunFour(buf, devices, d1, d2, SetAddress(d2, ctx.hostname, Address(ctx.ipv4)), p1, p2, p3, stale);
    PacketIsRecords(buf, devices, stale);
  }

  /**
   * A response into an empty table leaves exactly one device, with the server's instance name, host, port and
   * address; hearing it again changes nothing.
   */
  lemma ResponseRegisters(ctx: Context, ttl: uint32, stale: seq<byte>)
    requires Announced(ctx) && |stale| == MAX_NAME_LEN
    ensures var only := [Device(ctx.instance, ctx.hostname, Address(ctx.ipv4), ctx.port, true)];
            && ParsePacket(Response(ctx, ttl), [], stale) == only
            && ParsePacket(Response(ctx, ttl), only, stale) == only
  {
    ResponseParsed(ctx, ttl, [], stale);
    var only := [Device(ctx.instance, ctx.hostname, Address(ctx.ipv4), ctx.port, true)];
    ResponseParsed(ctx, ttl, only, stale);
    hide Response, Address, WellFormed, ParsePacket;
    var new_ := [Device(ctx.instance, [], [], 0, false)];
    var served := [Device(ctx.instance, ctx.hostname, [], ctx.port, false)];
    OneDevice(new_[0], ctx, Address(ctx.ipv4));
    OneDevice(only[0], ctx, Address(ctx.ipv4));
    assert Find([], ctx.instance) == 0 && Register([], ctx.instance) == new_;
    assert Register(only, ctx.instance) == only;
  }

  lemma OneDevice(d: Device, ctx: Context, address: seq<byte>)
    requires d.name == ctx.instance
    ensures SetAddress(SetService([d], ctx.instance, ctx.hostname, ctx.port), ctx.hostname, address) ==
      [d.(target := ctx.hostname, port := ctx.port, ipv4 := address, hasAddr := true)]
  {
    var e := d.(target := ctx.hostname, port := ctx.port);
    assert Find([d], ctx.instance) == 0;
    assert SetService([d], ctx.instance, ctx.hostname, ctx.port) == [e];
    assert [e][1..] == [];
    assert SetAddress([], ctx.hostname, address) == [];
  }

  // ----- Probing -----

  lemma RecordMentions(buf: seq<byte>, pos: nat, owner: seq<byte>, kind: nat, class_: nat, ttl: uint32, data: seq<byte>,
      left: nat, name: seq<byte>)
    requires Holds(buf, pos, Record(owner, kind, class_, ttl, data)) && kind < 0x1_0000 && |data| < 0x1_0000
    requires WellFormed(owner) && left > 0
    ensures Mentions(buf, pos, left, name) <==>
      SameText(owner, name) || Mentions(buf, pos + |Record(owner, kind, class_, ttl, data)|, left - 1, name)
  {
    hide Holds, Encoded, Record, Decode, WellFormed, CString, Get16, SameText;
    RecordParts(buf, pos, owner, kind, class_, ttl, data);
    NameParses(buf, pos, owner);
  }

  /** While probing, a response of another server is a conflict exactly when it owns a record of our hostname. */
  lemma ConflictDetected(ctx: Context, ttl: uint32, hostname: seq<byte>)
    requires Announced(ctx)
    ensures ResponseContains(Response(ctx, ttl), hostname) <==>
      SameText(ctx.hostname, hostname) || SameText(ctx.instance, hostname) || SameText(ctx.service, hostname)
  {
    hide *;
    AnnouncedFits(ctx);
    var buf := Response(ctx, ttl);
    ResponseLayout(ctx, ttl);
    var p1 := HEADER + |PtrRecord(ctx, ttl)|;
    var p2 := p1 + |SrvRecord(ctx, ttl)|;
    var p3 := p2 + |TxtRecord(ctx, ttl)|;
    PtrMentions(buf, HEADER, ctx, ttl, hostname);
    SrvMentions(buf, p1, ctx, ttl, hostname);
    TxtMentions(buf, p2, ctx, ttl, hostname);
    AMentions(buf, p3, ctx, ttl, hostname);
    NoneLeft(buf, p3 + |ARecord(ctx, ttl)|, hostname);
    PacketMentions(buf, hostname);
  }

  lemma PacketMentions(buf: seq<byte>, name: seq<byte>)
    requires |buf| >= HEADER && Get16(buf, 4) == 0 && Records(buf) == 4
    ensures ResponseContains(buf, name) <==> Mentions(buf, HEADER, 4, name)
  {
    hide Decode, Mentions;
  }

  lemma NoneLeft(buf: seq<byte>, pos: nat, name: seq<byte>)
    ensures !Mentions(buf, pos, 0, name)
  {
  }

  lemma AnnouncedFits(ctx: Context)
    requires Announced(ctx)
    ensures Fits(ctx) && |ctx.ipv4| == 4
  {
    hide WellFormed;
  }

  lemma PtrMentions(buf: seq<byte>, pos: nat, ctx: Context, ttl: uint32, name: seq<byte>)
    requires Announced(ctx) && Holds(buf, pos, PtrRecord(ctx, ttl))
    ensures Mentions(buf, pos, 4, name) <==>
        SameText(ctx.service, name) || Mentions(buf, pos + |PtrRecord(ctx, ttl)|, 3, name)
  {
    hide Holds, Encoded, Record, WellFormed, Mentions, SameText;
    EncodedSize(ctx.instance);
    RecordMentions(buf, pos, ctx.service, TYPE_PTR, CLASS_IN, ttl, Encoded(ctx.instance), 4, name);
  }

  lemma SrvMentions(buf: seq<byte>, pos: nat, ctx: Context, ttl: uint32, name: seq<byte>)
    requires Announced(ctx) && Holds(buf, pos, SrvRecord(ctx, ttl))
    ensures Mentions(buf, pos, 3, name) <==>
        SameText(ctx.instance, name) || Mentions(buf, pos + |SrvRecord(ctx, ttl)|, 2, name)
  {
    hide Holds, Encoded, Record, WellFormed, Mentions, SameText;
    EncodedSize(ctx.hostname);
    RecordMentions(buf, pos, ctx.instance, TYPE_SRV, CLASS_IN + CLASS_FLUSH, ttl, SrvData(ctx), 3, name);
  }

  lemma TxtMentions(buf: seq<byte>, pos: nat, ctx: Context, ttl: uint32, name: seq<byte>)
    requires Announced(ctx) && Holds(buf, pos, TxtRecord(ctx, ttl))
    ensures Mentions(buf, pos, 2, name) <==>
        SameText(ctx.instance, name) || Mentions(buf, pos + |TxtRecord(ctx, ttl)|, 1, name)
  {
    hide Holds, Encoded, Record, WellFormed, Mentions, SameText;
    RecordMentions(buf, pos, ctx.instance, TYPE_TXT, CLASS_IN + CLASS_FLUSH, ttl, [|ctx.txt|] + ctx.txt, 2, name);
  }

  lemma AMentions(buf: seq<byte>, pos: nat, ctx: Context, ttl: uint32, name: seq<byte>)
    requires Announced(ctx) && Holds(buf, pos, ARecord(ctx, ttl))
    ensures Mentions(buf, pos, 1, name) <==>
        SameText(ctx.hostname, name) || Mentions(buf, pos + |ARecord(ctx, ttl)|, 0, name)
  {
    hide Holds, Encoded, Record, WellFormed, Mentions, SameText;
    RecordMentions(buf, pos, ctx.hostname, TYPE_A, CLASS_IN + CLASS_FLUSH, ttl, ctx.ipv4, 1, name);
  }
}
