/** When the uninitialised buffer for a service record's target reaches the table of devices. */
module HeraldTargets {
  import opened Bytes
  import opened HeraldNames
  import opened HeraldServer
  import opened HeraldClient

  /** The target parse_rr takes from a buffer that held `stale` before. */
  function Target(d: Decoded, stale: seq<byte>): seq<byte>
    requires |stale| == MAX_NAME_LEN && |d.text| < MAX_NAME_LEN
  {
    Cut(CString(Written(d, stale)), MAX_NAME_LEN - 1)
  }

  /** The name ends within what decode_name wrote: by its terminator, an octet 0 in a label, or the field's length. */
  predicate Settled(d: Decoded) {
    d.terminated || !NulFree(d.text) || |d.text| >= MAX_NAME_LEN - 1
  }

  function Filled(b: byte): (s: seq<byte>)
    ensures |s| == MAX_NAME_LEN && forall i :: 0 <= i < |s| ==> s[i] == b
  {
    seq(MAX_NAME_LEN, _ => b)
  }

  lemma {:induction false} CStringOfPrefix(a: seq<byte>, b: seq<byte>)
    ensures !NulFree(a) ==> CString(a + b) == CString(a)
    ensures NulFree(a) ==> CString(a + b) == a + CString(b)
  {
    if a == [] {
      assert a + b == b;
    } else {
      assert (a + b)[1..] == a[1..] + b;
      CStringOfPrefix(a[1..], b);
      assert !NulFree(a) && a[0] != 0 ==> !NulFree(a[1..]);
    }
  }

  /** The target depends on what the buffer held before exactly when the name is not settled. */
  lemma TargetDepends(d: Decoded, s1: seq<byte>, s2: seq<byte>)
    requires |s1| == |s2| == MAX_NAME_LEN && |d.text| < MAX_NAME_LEN
    ensures Settled(d) ==> Target(d, s1) == Target(d, s2)
    ensures !Settled(d) ==> Target(d, Filled(0)) != Target(d, Filled(0x61))
  {
    WrittenText(d, s1);
    WrittenText(d, s2);
    if !Settled(d) {
      WrittenText(d, Filled(0));
      WrittenText(d, Filled(0x61));
      assert NulFree(Filled(0x61)[|d.text|..]);
      assert Target(d, Filled(0)) == d.text;
      assert |CString(Written(d, Filled(0x61)))| == MAX_NAME_LEN;
    }
  }

  lemma WrittenText(d: Decoded, stale: seq<byte>)
    requires |stale| == MAX_NAME_LEN && |d.text| < MAX_NAME_LEN
    ensures !NulFree(d.text) ==> CString(Written(d, stale)) == CString(d.text)
    ensures NulFree(d.text) && d.terminated ==> CString(Written(d, stale)) == d.text
    ensures NulFree(d.text) && !d.terminated ==> CString(Written(d, stale)) == d.text + CString(stale[|d.text|..])
    ensures |d.text| >= MAX_NAME_LEN - 1 && NulFree(d.text) ==>
        Cut(CString(Written(d, stale)), MAX_NAME_LEN - 1) == d.text
  {
    var tail := (if d.terminated then [0] else [stale[|d.text|]]) + stale[|d.text| + 1..];
    assert Written(d, stale) == d.text + tail;
    CStringOfPrefix(d.text, tail);
    if !d.terminated {
      assert tail == stale[|d.text|..];
    }
  }

  // ----- Records -----

  /** A service record whose target the parser reads; it is the data at the result, if there is one. */
  function ServiceAt(buf: seq<byte>, pos: nat): Option<nat> {
    var d := Decode(buf, pos);
    if d.ret < 0 || d.ret + 10 > |buf| then None
    else
      var kind, length, data := Get16(buf, d.ret), Get16(buf, d.ret + 8), d.ret + 10;
      if data + length <= |buf| && kind == TYPE_SRV && length >= 7 then Some(data) else None
  }

  predicate RecordSettled(buf: seq<byte>, pos: nat) {
    var data := ServiceAt(buf, pos);
    data.Some? ==> Settled(Decode(buf, data.value + 6))
  }

  /** Is there a device of that name, or room for one? */
  predicate Listed(devices: seq<Device>, name: seq<byte>) {
    Find(Register(devices, name), name) < |Register(devices, name)|
  }

  lemma RecordIndependent(buf: seq<byte>, pos: nat, devices: seq<Device>, s1: seq<byte>, s2: seq<byte>)
    requires |s1| == |s2| == MAX_NAME_LEN
    ensures ParseRecord(buf, pos, devices, s1).pos == ParseRecord(buf, pos, [], Filled(0)).pos
    ensures RecordSettled(buf, pos) ==> ParseRecord(buf, pos, devices, s1) == ParseRecord(buf, pos, devices, s2)
  {
    hide Decode, Get16, Register, SetAddress, Address, SetService, Written, CString, Settled;
    if ServiceAt(buf, pos).Some? {
      TargetDepends(Decode(buf, ServiceAt(buf, pos).value + 6), s1, s2);
    }
  }

  /**
   * Exactly when a record's effect on the table depends on the uninitialised buffer: its target is read, is not
   * settled, and its device is in the table or gets into it.
   */
  lemma RecordDepends(buf: seq<byte>, pos: nat, devices: seq<Device>)
    ensures (forall s1, s2 :: |s1| == |s2| == MAX_NAME_LEN ==>
               ParseRecord(buf, pos, devices, s1) == ParseRecord(buf, pos, devices, s2)) <==>
            RecordSettled(buf, pos) || !Listed(devices, CString(Decode(buf, pos).text))
  {
    hide ParseRecord, RecordSettled, Listed, Decode, CString;
    var name := CString(Decode(buf, pos).text);
    forall s1, s2 | |s1| == |s2| == MAX_NAME_LEN
      ensures RecordSettled(buf, pos) || !Listed(devices, name) ==>
                ParseRecord(buf, pos, devices, s1) == ParseRecord(buf, pos, devices, s2)
    {
      RecordIndependent(buf, pos, devices, s1, s2);
      UnlistedIndependent(buf, pos, devices, s1, s2);
    }
    if !RecordSettled(buf, pos) && Listed(devices, name) {
      UnsettledDiffers(buf, pos, devices);
      assert |Filled(0)| == |Filled(0x61)| == MAX_NAME_LEN;
    }
  }

  lemma UnlistedIndependent(buf: seq<byte>, pos: nat, devices: seq<Device>, s1: seq<byte>, s2: seq<byte>)
    requires |s1| == |s2| == MAX_NAME_LEN
    ensures !Listed(devices, CString(Decode(buf, pos).text)) ==>
              ParseRecord(buf, pos, devices, s1) == ParseRecord(buf, pos, devices, s2)
  {
    hide Decode, Get16, Register, Find, SetAddress, Address, Written, CString, Cut;
  }

  lemma UnsettledDiffers(buf: seq<byte>, pos: nat, devices: seq<Device>)
    requires !RecordSettled(buf, pos) && Listed(devices, CString(Decode(buf, pos).text))
    ensures ParseRecord(buf, pos, devices, Filled(0)) != ParseRecord(buf, pos, devices, Filled(0x61))
  {
    hide Decode, Get16, Register, Find, Written, CString, Settled, Cut, Filled;
    var name, data := CString(Decode(buf, pos).text), ServiceAt(buf, pos).value;
    var d := Decode(buf, data + 6);
    TargetDepends(d, Filled(0), Filled(0));
    var all := Register(devices, name);
    var i := Find(all, name);
    assert SetService(devices, name, Target(d, Filled(0)), Get16(buf, data + 4))[i].target == Target(d, Filled(0));
    assert SetService(devices, name, Target(d, Filled(0x61)), Get16(buf, data + 4))[i].target ==
        Target(d, Filled(0x61));
  }

  // ----- Packets -----

  /** Every service record the loop of parse_response reaches has a settled target. */
  predicate AllSettled(buf: seq<byte>, pos: int, left: nat)
    decreases left
  {
    left == 0 || pos <= 0 || pos >= |buf| || (
      RecordSettled(buf, pos) && AllSettled(buf, ParseRecord(buf, pos, [], Filled(0)).pos, left - 1))
  }

  predicate PacketSettled(buf: seq<byte>) {
    |buf| < HEADER || Get16(buf, 2) < 0x8000 || (
      var start := SkipQuestions(buf, HEADER, Get16(buf, 4));
      start.None? || AllSettled(buf, start.value, Records(buf)))
  }

  lemma {:induction false} RecordsIndependent(buf: seq<byte>, pos: int, left: nat, devices: seq<Device>, s1: seq<byte>,
      s2: seq<byte>)
    requires |s1| == |s2| == MAX_NAME_LEN && AllSettled(buf, pos, left)
    ensures ParseRecords(buf, pos, left, devices, s1) == ParseRecords(buf, pos, left, devices, s2)
    decreases left
  {
    hide ParseRecord, RecordSettled, Filled;
    if left > 0 && 0 < pos < |buf| {
      RecordIndependent(buf, pos, devices, s1, s2);
      var p := ParseRecord(buf, pos, devices, s1);
      RecordsIndependent(buf, p.pos, left - 1, p.devices, s1, s2);
    }
  }

  /** What such a packet does to a table depends on the packet and the table alone. */
  lemma PacketIndependent(buf: seq<byte>, devices: seq<Device>, s1: seq<byte>, s2: seq<byte>)
    requires |s1| == |s2| == MAX_NAME_LEN && PacketSettled(buf)
    ensures ParsePacket(buf, devices, s1) == ParsePacket(buf, devices, s2)
  {
    hide Get16, SkipQuestions, AllSettled, ParseRecords, Records;
    if |buf| >= HEADER && Get16(buf, 2) >= 0x8000 {
      var start := SkipQuestions(buf, HEADER, Get16(buf, 4));
      if start.Some? {
        RecordsIndependent(buf, start.value, Records(buf), devices, s1, s2);
      }
    }
  }

  /** For a packet of one record the condition is exact. */
  lemma OneRecordDepends(buf: seq<byte>, devices: seq<Device>)
    requires |buf| > HEADER && Get16(buf, 2) >= 0x8000 && Get16(buf, 4) == 0 && Records(buf) == 1
    ensures (forall s1, s2 :: |s1| == |s2| == MAX_NAME_LEN ==>
        ParsePacket(buf, devices, s1) == ParsePacket(buf, devices, s2)) <==>
            RecordSettled(buf, HEADER) || !Listed(devices, CString(Decode(buf, HEADER).text))
  {
    hide Get16, ParseRecord, RecordSettled, Listed, Decode, CString, Records, ParsePacket;
    OneRecord(buf, devices);
    RecordDepends(buf, HEADER, devices);
    forall s1, s2 | |s1| == |s2| == MAX_NAME_LEN
      ensures ParsePacket(buf, devices, s1) == ParsePacket(buf, devices, s2) <==>
                ParseRecord(buf, HEADER, devices, s1) == ParseRecord(buf, HEADER, devices, s2)
    {
      RecordIndependent(buf, HEADER, devices, s1, s1);
      RecordIndependent(buf, HEADER, devices, s2, s2);
    }
  }

  lemma OneRecord(buf: seq<byte>, devices: seq<Device>)
    requires |buf| > HEADER && Get16(buf, 2) >= 0x8000 && Get16(buf, 4) == 0 && Records(buf) == 1
    ensures forall s :: |s| == MAX_NAME_LEN ==>
        ParsePacket(buf, devices, s) == ParseRecord(buf, HEADER, devices, s).devices
  {
    hide Get16, ParseRecord, Records;
    forall s | |s| == MAX_NAME_LEN
      ensures ParsePacket(buf, devices, s) == ParseRecord(buf, HEADER, devices, s).devices
    {
      var p := ParseRecord(buf, HEADER, devices, s);
      assert ParseRecords(buf, HEADER, 1, devices, s) == ParseRecords(buf, p.pos, 0, p.devices, s);
    }
  }

  /** A packet with one service record whose target is half a pointer. */
  const HALF_POINTER: seq<byte> := [
    0, 0, 0x84, 0, 0, 0, 0, 1, 0, 0, 0, 0,
    1, 0x61, 0, 0, 33, 0, 1, 0, 0, 0, 0, 0, 7,
    0, 0, 0, 0, 0x10, 0, 192]

  lemma HalfPointerDecodes()
    ensures Decode(HALF_POINTER, 12) == Decoded(15, [0x61], true) && Decode(HALF_POINTER, 31) == Decoded(-1, [], false)
  {
    var buf := HALF_POINTER;
    hide DecodeFrom;
    DecodeStep(buf, 12, MAX_STEPS, false, -1, []);
    assert [] + buf[13..14] == [0x61];
    DecodeStep(buf, 14, MAX_STEPS - 1, false, -1, [0x61]);
    DecodeStep(buf, 31, MAX_STEPS, false, -1, []);
  }

  lemma HalfPointerFields()
    ensures Get16(HALF_POINTER, 15) == TYPE_SRV && Get16(HALF_POINTER, 23) == 7
  {
  }

  lemma HalfPointerUnsettled()
    ensures !RecordSettled(HALF_POINTER, 12)
    ensures Listed([], CString(Decode(HALF_POINTER, 12).text))
  {
    var buf := HALF_POINTER;
    hide Decode, CString, Get16, Listed;
    HalfPointerDecodes();
    HalfPointerFields();
    assert ServiceAt(buf, 12) == Some(25);
    ListedInEmpty(CString(Decode(buf, 12).text));
  }

  lemma ListedInEmpty(name: seq<byte>)
    ensures |name| < MAX_NAME_LEN ==> Listed([], name)
  {
    if |name| < MAX_NAME_LEN {
      assert Register([], name) == [Device(name, [], [], 0, false)];
    }
  }

  /** The same packet into the same table, with two different results. */
  lemma StaleTargetMatters()
    ensures ParsePacket(HALF_POINTER, [], Filled(0)) != ParsePacket(HALF_POINTER, [], Filled(0x61))
  {
    assert Get16(HALF_POINTER, 2) >= 0x8000 && Get16(HALF_POINTER, 4) == 0 && Records(HALF_POINTER) == 1;
    HalfPointerUnsettled();
    hide *;
    OneRecord(HALF_POINTER, []);
    UnsettledDiffers(HALF_POINTER, 12, []);
    RecordIndependent(HALF_POINTER, 12, [], Filled(0x61), Filled(0x61));
    RecordIndependent(HALF_POINTER, 12, [], Filled(0), Filled(0));
    assert ParseRecord(HALF_POINTER, 12, [], Filled(0)).pos == ParseRecord(HALF_POINTER, 12, [], Filled(0x61)).pos;
  }
}
