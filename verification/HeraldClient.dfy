/** The browsing side of herald: the query, and the table of devices built from responses. */
module HeraldClient {
  import opened Bytes
  import opened HeraldNames
  import opened HeraldDecoding
  import opened HeraldServer

  const MAX_RESULTS := 64
  const MAX_ADDRESS := 16

  // ----- The query -----

  const QUERY_HEADER: seq<byte> := [0, 0, 0, 0, 0, 1, 0, 0, 0, 0, 0, 0]

  function Query(service: seq<byte>): seq<byte> {
    QUERY_HEADER + Encoded(service) + [0, TYPE_PTR, 0x80, CLASS_IN]
  }

  /** build_query. */
  method BuildQuery(buf: array<byte>, service: seq<byte>) returns (pos: nat)
    requires |service| < MAX_NAME_LEN && buf.Length == BUF_SIZE
    modifies buf
    ensures pos <= buf.Length && buf[..pos] == Query(service)
  {
    EncodedSize(service);
    hide Encoded;
    forall i | 0 <= i < HEADER {
      buf[i] := 0;
    }
    buf[5] := 1;
    assert buf[..HEADER] == QUERY_HEADER;
    pos := EncodeName(buf, HEADER, service);
    buf[pos], buf[pos + 1], buf[pos + 2], buf[pos + 3] := 0, TYPE_PTR, 0x80, CLASS_IN;
    pos := pos + 4;
  }

  // ----- The table of devices -----

  datatype Device = Device(name: seq<byte>, target: seq<byte>, ipv4: seq<byte>, port: uint16, hasAddr: bool)

  function Cut(s: seq<byte>, n: nat): seq<byte> {
    if |s| <= n then s else s[..n]
  }

  function Find(devices: seq<Device>, name: seq<byte>): (i: nat)
    ensures i <= |devices| && (i < |devices| ==> devices[i].name == name)
  {
    if devices == [] || devices[0].name == name then 0 else 1 + Find(devices[1..], name)
  }

  /** get_device: known names stay, a new one is added while there is room. */
  function Register(devices: seq<Device>, name: seq<byte>): seq<Device> {
    if Find(devices, name) < |devices| || |devices| >= MAX_RESULTS then devices
    else devices + [Device(Cut(name, MAX_NAME_LEN - 1), [], [], 0, false)]
  }

  function Decimal(b: byte): (t: seq<byte>)
    ensures 1 <= |t| <= 3
  {
    if b < 10 then [0x30 + b]
    else if b < 100 then [0x30 + b / 10, 0x30 + b % 10]
    else [0x30 + b / 100, 0x30 + b / 10 % 10, 0x30 + b % 10]
  }

  /** inet_ntop: dotted decimal. */
  function Address(ip: seq<byte>): (t: seq<byte>)
    requires |ip| == 4
    ensures |t| < MAX_ADDRESS
  {
    Decimal(ip[0]) + [DOT] + Decimal(ip[1]) + [DOT] + Decimal(ip[2]) + [DOT] + Decimal(ip[3])
  }

  function DecimalValue(t: seq<byte>): int {
    if t == [] then 0 else 10 * DecimalValue(t[..|t| - 1]) + (t[|t| - 1] as int - 0x30)
  }

  lemma DecimalReads(b: byte)
    ensures DecimalValue(Decimal(b)) == b && DOT !in Decimal(b)
  {
    var t := Decimal(b);
    if |t| == 1 {
      assert t[..0] == [];
    } else if |t| == 2 {
      assert t[..1] == [t[0]] && [t[0]][..0] == [];
      assert DecimalValue([t[0]]) == t[0] as int - 0x30;
    } else {
      assert t[..2] == [t[0], t[1]] && [t[0], t[1]][..1] == [t[0]] && [t[0]][..0] == [];
      assert DecimalValue([t[0]]) == t[0] as int - 0x30;
      assert DecimalValue([t[0], t[1]]) == 10 * DecimalValue([t[0]]) + (t[1] as int - 0x30);
      assert b / 10 == b / 100 * 10 + b / 10 % 10;
    }
  }

  /** The text names the four octets in order. */
  lemma AddressReads(ip: seq<byte>)
    requires |ip| == 4
    ensures var parts := Labels(Address(ip));
            |parts| == 4 && forall i :: 0 <= i < 4 ==> DecimalValue(parts[i]) == ip[i]
  {
    hide Labels, Join, Decimal, DecimalValue;
    var d := [Decimal(ip[0]), Decimal(ip[1]), Decimal(ip[2]), Decimal(ip[3])];
    forall i | 0 <= i < 4 ensures DecimalValue(d[i]) == ip[i] && DOT !in d[i] {
      DecimalReads(ip[i]);
    }
    JoinStep(d[3], []);
    JoinStep(d[2], [d[3]]);
    JoinStep(d[1], [d[2], d[3]]);
    JoinStep(d[0], [d[1], d[2], d[3]]);
    assert [d[3]] + [] == [d[3]] && [d[2]] + [d[3]] == [d[2], d[3]] && [d[1]] + [d[2], d[3]] == [d[1], d[2], d[3]];
    assert [d[0]] + [d[1], d[2], d[3]] == d;
    assert Join(d) == Address(ip);
    LabelsJoin(d);
  }

  function SetService(devices: seq<Device>, name: seq<byte>, target: seq<byte>, port: uint16): seq<Device> {
    var all := Register(devices, name);
    var i := Find(all, name);
    if i < |all| then all[i := all[i].(target := target, port := port)] else all
  }

  function WithAddress(d: Device, name: seq<byte>, address: seq<byte>): Device {
    if d.target == name || d.name == name then d.(ipv4 := address, hasAddr := true) else d
  }

  function SetAddress(devices: seq<Device>, name: seq<byte>, address: seq<byte>): (r: seq<Device>)
    ensures |r| == |devices|
  {
    if devices == [] then [] else [WithAddress(devices[0], name, address)] + SetAddress(devices[1..], name, address)
  }

  // ----- Records -----

  /** parse_rr's result and the table behind it. */
  datatype Parsed = Parsed(pos: int, devices: seq<Device>)

  /**
   * parse_rr. The target of a service record is read even when its name does not decode; `stale` is what the
   * uninitialised buffer for it held before.
   */
  function ParseRecord(buf: seq<byte>, pos: nat, devices: seq<Device>, stale: seq<byte>): (p: Parsed)
    requires |stale| == MAX_NAME_LEN
    ensures p.pos == -1 || pos < p.pos <= |buf|
  {
    var d := Decode(buf, pos);
    DecodeRange(buf, pos);
    if d.ret < 0 || d.ret + 10 > |buf| then Parsed(-1, devices)
    else
      var kind, length, data := Get16(buf, d.ret), Get16(buf, d.ret + 8), d.ret + 10;
      if data + length > |buf| then Parsed(-1, devices)
      else Parsed(data + length, Noted(buf, CString(d.text), kind, length, data, devices, stale))
  }

  /** What a record does to the table. */
  function Noted(buf: seq<byte>, name: seq<byte>, kind: uint16, length: uint16, data: nat, devices: seq<Device>,
      stale: seq<byte>): seq<Device>
    requires |stale| == MAX_NAME_LEN && data + length <= |buf|
  {
    if kind == TYPE_PTR then
      var p := Decode(buf, data);
      if p.ret >= 0 then Register(devices, CString(p.text)) else devices
    else if kind == TYPE_SRV && length >= 7 then
      var target := Cut(CString(Written(Decode(buf, data + 6), stale)), MAX_NAME_LEN - 1);
      SetService(devices, name, target, Get16(buf, data + 4))
    else if kind == TYPE_A && length == 4 then SetAddress(devices, name, Address(buf[data..data + 4]))
    else devices
  }

  function ParseRecords(buf: seq<byte>, pos: int, left: nat, devices: seq<Device>, stale: seq<byte>): seq<Device>
    requires |stale| == MAX_NAME_LEN
    decreases left
  {
    if left == 0 || pos <= 0 || pos >= |buf| then devices
    else
      var p := ParseRecord(buf, pos, devices, stale);
      ParseRecords(buf, p.pos, left - 1, p.devices, stale)
  }

  /** parse_response, on a table. */
  function ParsePacket(buf: seq<byte>, devices: seq<Device>, stale: seq<byte>): seq<Device>
    requires |stale| == MAX_NAME_LEN
  {
    if |buf| < HEADER || Get16(buf, 2) < 0x8000 then devices
    else
      var start := SkipQuestions(buf, HEADER, Get16(buf, 4));
      if start.None? then devices else ParseRecords(buf, start.value, Records(buf), devices, stale)
  }

  /** The table g_devices and the programs that fill it. */
  class Table {
    var devices: seq<Device>

    constructor ()
      ensures devices == []
    {
      devices := [];
    }

    /** get_device: the index of the device, or none when the table is full. */
    method GetDevice(name: seq<byte>) returns (i: nat)
      requires |name| < MAX_NAME_LEN
      modifies this
      ensures devices == Register(old(devices), name) && i == Find(devices, name)
    {
      i := 0;
      while i < |devices|
        invariant i <= |devices| && Find(devices, name) == i + Find(devices[i..], name)
      {
        if devices[i].name == name {
          return;
        }
        assert devices[i..][1..] == devices[i + 1..];
        i := i + 1;
      }
      if |devices| >= MAX_RESULTS {
        return;
      }
      FindNew(devices, Device(Cut(name, MAX_NAME_LEN - 1), [], [], 0, false));
      devices := devices + [Device(Cut(name, MAX_NAME_LEN - 1), [], [], 0, false)];
    }

    /** parse_rr. */
    method ParseRr(buf: seq<byte>, start: nat, stale: seq<byte>) returns (pos: int)
      requires |stale| == MAX_NAME_LEN
      modifies this
      ensures Parsed(pos, devices) == ParseRecord(buf, start, old(devices), stale)
    {
      hide Decode, CString, Get16, Written, Register, Find, Address, SetAddress;
      var name := new byte[MAX_NAME_LEN];
      ghost var before := name[..];
      pos := DecodeName(buf, start, name);
      DecodeRange(buf, start);
      if pos < 0 || pos + 10 > |buf| {
        return -1;
      }
      TerminatedText(Decode(buf, start), before);
      var kind, length, data := Get16(buf, pos), Get16(buf, pos + 8), pos + 10;
      if data + length > |buf| {
        return -1;
      }
      var owner := CString(name[..]);
      OwnerFits(Decode(buf, start));
      if kind == TYPE_PTR {
        var ptr := new byte[MAX_NAME_LEN];
        ghost var empty := ptr[..];
        var ret := DecodeName(buf, data, ptr);
        if ret >= 0 {
          TerminatedText(Decode(buf, data), empty);
          OwnerFits(Decode(buf, data));
          var _ := GetDevice(CString(ptr[..]));
        }
      } else if kind == TYPE_SRV && length >= 7 {
        var port := Get16(buf, data + 4);
        var target := new byte[MAX_NAME_LEN](i requires 0 <= i < |stale| => stale[i]);
        assert target[..] == stale;
        var _ := DecodeName(buf, data + 6, target);
        var i := GetDevice(owner);
        if i < |devices| {
          devices := devices[i := devices[i].(target := Cut(CString(target[..]), MAX_NAME_LEN - 1), port := port)];
        }
      } else if kind == TYPE_A && length == 4 {
        NoteAddress(owner, Address(buf[data..data + 4]));
      }
      pos := data + length;
    }

    /** The loop of parse_rr for an address record. */
    method NoteAddress(name: seq<byte>, address: seq<byte>)
      modifies this
      ensures devices == SetAddress(old(devices), name, address)
    {
      var i := 0;
      while i < |devices|
        invariant i <= |devices| == |old(devices)|
        invariant devices[i..] == old(devices)[i..]
        invariant devices[..i] + SetAddress(devices[i..], name, address) == SetAddress(old(devices), name, address)
      {
        assert devices[i..][1..] == devices[i + 1..];
        if devices[i].target == name || devices[i].name == name {
          devices := devices[i := devices[i].(ipv4 := address, hasAddr := true)];
        }
        i := i + 1;
      }
    }

    /** parse_response. */
    method ParseResponse(buf: seq<byte>, stale: seq<byte>)
      requires |stale| == MAX_NAME_LEN
      modifies this
      ensures devices == ParsePacket(buf, old(devices), stale)
    {
      hide Decode, Get16, ParseRecord;
      if |buf| < HEADER {
        return;
      }
      var flags := Get16(buf, 2);
      if flags < 0x8000 {
        return;
      }
      var questions, records := Get16(buf, 4), Records(buf);
      var pos: int, i: nat := HEADER, 0;
      while i < questions && pos > 0 && pos < |buf|
        invariant i <= questions && pos >= HEADER && devices == old(devices)
        invariant SkipQuestions(buf, pos, questions - i) == SkipQuestions(buf, HEADER, questions)
      {
        var tmp := new byte[MAX_NAME_LEN];
        var next := DecodeName(buf, pos, tmp);
        DecodeRange(buf, pos);
        if next < 0 || next + 4 > |buf| {
          return;
        }
        pos := next + 4;
        i := i + 1;
      }
      ghost var start := pos;
      i := 0;
      while i < records && pos > 0 && pos < |buf|
        invariant i <= records
        invariant ParseRecords(buf, pos, records - i, devices, stale) ==
            ParseRecords(buf, start, records, old(devices), stale)
      {
        pos := ParseRr(buf, pos, stale);
        i := i + 1;
      }
    }
  }

  lemma {:induction false} FindNew(devices: seq<Device>, d: Device)
    requires Find(devices, d.name) == |devices|
    ensures Find(devices + [d], d.name) == |devices|
  {
    if devices != [] {
      assert (devices + [d])[1..] == devices[1..] + [d];
      FindNew(devices[1..], d);
    }
  }

  lemma OwnerFits(d: Decoded)
    requires |d.text| < MAX_NAME_LEN
    ensures |CString(d.text)| < MAX_NAME_LEN
  {
  }
}
