/** The whole 1-Wire search: every device once, in order; and the checksum of a code. */
module OneWireScan {
  import opened Bytes
  import opened OneWire

  // ----- The ROM checksum -----

  /** One bit into the Dallas CRC-8 register, low bit first: polynomial 0x8C. */
  function Shift(crc: bv8, bit: bool): bv8 {
    if (crc & 1 == 1) != bit then (crc >> 1) ^ 0x8C else crc >> 1
  }

  /** The low `n` bits of an octet, low bit first. */
  function ShiftBits(crc: bv8, data: bv8, n: nat): bv8
    decreases n
  {
    if n == 0 then crc else ShiftBits(Shift(crc, data & 1 == 1), data >> 1, n - 1)
  }

  function Crc8(data: seq<bv8>): bv8 {
    if data == [] then 0 else ShiftBits(Crc8(data[..|data| - 1]), data[|data| - 1], 8)
  }

  /** CalcCRC. */
  method CalcCrc(data: seq<bv8>) returns (crc: bv8)
    ensures crc == Crc8(data)
  {
    hide Crc8, ShiftBits;
    crc := 0;
    EmptyCrc();
    var loop := 0;
    while loop < |data|
      invariant 0 <= loop <= |data| && crc == Crc8(data[..loop])
    {
      ghost var goal := ShiftBits(crc, data[loop], 8);
      var dataByte, loop2 := data[loop], 0;
      while loop2 < 8
        invariant 0 <= loop2 <= 8 && ShiftBits(crc, dataByte, 8 - loop2) == goal
      {
        ShiftBitsNext(crc, dataByte, 8 - loop2);
        if (crc ^ dataByte) & 1 == 1 {
          crc := crc >> 1;
          crc := crc ^ 0x8C;
        } else {
          crc := crc >> 1;
        }
        dataByte := dataByte >> 1;
        loop2 := loop2 + 1;
      }
      NoMoreBits(crc, dataByte);
      CrcNext(data, loop);
      loop := loop + 1;
    }
    assert data[..loop] == data;
  }

  lemma EmptyCrc()
    ensures Crc8([]) == 0
  {
  }

  lemma CrcNext(data: seq<bv8>, i: nat)
    requires i < |data|
    ensures Crc8(data[..i + 1]) == ShiftBits(Crc8(data[..i]), data[i], 8)
  {
    hide ShiftBits;
    assert data[..i + 1][..i] == data[..i];
  }

  lemma ShiftBitsNext(crc: bv8, data: bv8, n: nat)
    requires n > 0
    ensures (crc ^ data) & 1 == 1 ==> ShiftBits(crc, data, n) == ShiftBits((crc >> 1) ^ 0x8C, data >> 1, n - 1)
    ensures (crc ^ data) & 1 != 1 ==> ShiftBits(crc, data, n) == ShiftBits(crc >> 1, data >> 1, n - 1)
  {
  }

  lemma NoMoreBits(crc: bv8, data: bv8)
    ensures ShiftBits(crc, data, 0) == crc
  {
  }

  /** A zero bit shifted in. */
  function Turn(x: bv8): bv8 {
    if x & 1 == 1 then (x >> 1) ^ 0x8C else x >> 1
  }

  function Turns(x: bv8, n: nat): bv8
    decreases n
  {
    if n == 0 then x else Turns(Turn(x), n - 1)
  }

  function Drop(x: bv8, n: nat): bv8
    decreases n
  {
    if n == 0 then x else Drop(x >> 1, n - 1)
  }

  lemma ShiftTurns(crc: bv8, data: bv8)
    ensures Shift(crc, data & 1 == 1) ^ (data >> 1) == Turn(crc ^ data)
  {
  }

  lemma {:induction false} ShiftBitsTurns(crc: bv8, data: bv8, n: nat)
    ensures ShiftBits(crc, data, n) ^ Drop(data, n) == Turns(crc ^ data, n)
    decreases n
  {
    hide Shift, Turn;
    if n > 0 {
      ShiftTurns(crc, data);
      ShiftBitsTurns(Shift(crc, data & 1 == 1), data >> 1, n - 1);
    }
  }

  lemma OctetTurns(crc: bv8, data: bv8)
    ensures ShiftBits(crc, data, 8) == Turns(crc ^ data, 8)
  {
    hide ShiftBits, Turns;
    ShiftBitsTurns(crc, data, 8);
    assert Drop(data, 8) == 0 by {
      DropAll(data);
    }
  }

  lemma DropAll(x: bv8)
    ensures Drop(x, 8) == 0
  {
    assert Drop(x, 8) == Drop(x >> 1, 7) == Drop(x >> 2, 6) == Drop(x >> 3, 5) == Drop(x >> 4, 4);
    assert Drop(x >> 4, 4) == Drop(x >> 5, 3) == Drop(x >> 6, 2) == Drop(x >> 7, 1) == Drop(x >> 8, 0);
  }

  lemma {:induction false} TurnsApart(x: bv8, y: bv8, n: nat)
    ensures Turns(x, n) == Turns(y, n) ==> x == y
    decreases n
  {
    if n > 0 {
      assert Turn(x) == Turn(y) ==> x == y;
      TurnsApart(Turn(x), Turn(y), n - 1);
    }
  }

  lemma {:induction false} ZeroTurns(n: nat)
    ensures Turns(0, n) == 0
  {
    if n > 0 {
      ZeroTurns(n - 1);
    }
  }

  /** The check the tool makes, that the last octet is the checksum of the others, is the zero residue of all. */
  lemma CrcResidue(data: seq<bv8>, x: bv8)
    ensures Crc8(data + [x]) == 0 <==> x == Crc8(data)
  {
    hide Turns, ShiftBits;
    assert (data + [x])[..|data|] == data;
    var c := Crc8(data);
    OctetTurns(c, x);
    ZeroTurns(8);
    TurnsApart(c ^ x, 0, 8);
    assert c ^ x == 0 <==> x == c;
  }

  /** The register tells apart any two octets, and keeps telling apart any two registers. */
  lemma OctetApart(c: bv8, d: bv8, x: bv8, y: bv8)
    ensures ShiftBits(c, x, 8) == ShiftBits(d, y, 8) ==> c ^ x == d ^ y
  {
    hide Turns, ShiftBits;
    OctetTurns(c, x);
    OctetTurns(d, y);
    TurnsApart(c ^ x, d ^ y, 8);
  }

  lemma XorApart(c: bv8, x: bv8, y: bv8)
    ensures c ^ x == c ^ y <==> x == y
    ensures x ^ c == y ^ c <==> x == y
  {
  }

  /** A single wrong octet, however wrong, never passes. */
  lemma {:induction false} DetectsOneOctet(data: seq<bv8>, i: nat, x: bv8)
    requires i < |data| && x != data[i]
    ensures Crc8(data[i := x]) != Crc8(data)
  {
    hide Crc8, ShiftBits;
    var n := |data| - 1;
    var wrong := data[i := x];
    CrcNext(data, n);
    CrcNext(wrong, n);
    assert data[..n + 1] == data && wrong[..n + 1] == wrong;
    var c, d := Crc8(data[..n]), Crc8(wrong[..n]);
    OctetApart(c, d, data[n], wrong[n]);
    XorApart(c, data[n], wrong[n]);
    XorApart(data[n], c, d);
    if i == n {
      assert wrong[..n] == data[..n];
    } else {
      assert wrong[..n] == data[..n][i := x];
      DetectsOneOctet(data[..n], i, x);
    }
  }

  // ----- Codes as octets -----

  function Octet(x: nat): bv8 {
    (x % 256) as bv8
  }

  /** The low octets of a code as they lie in memory. */
  function Octets(x: nat, n: nat): seq<bv8> {
    if n == 0 then [] else [Octet(x)] + Octets(x / 256, n - 1)
  }

  /** The top octet of the code is the checksum of the other seven. */
  predicate CrcOk(x: uint64) {
    Octet(x / 0x100_0000_0000_0000) == Crc8(Octets(x, 7))
  }

  // ----- Search order -----

  lemma LessTotal(x: uint64, y: uint64)
    ensures x == y || Less(x, y) || Less(y, x)
  {
    hide Bit;
    if forall i :: 0 <= i < 64 ==> Bit(x, i) == Bit(y, i) {
      Pow64();
      SameBits(x, y, 64);
    } else {
      var j := 0;
      while Bit(x, j) == Bit(y, j)
        invariant 0 <= j < 64 && Agree(x, y, j)
        decreases 64 - j
      {
        if j == 63 {
          assert false;
        }
        j := j + 1;
      }
      assert Agree(y, x, j);
      assert Differs(x, y, j) || Differs(y, x, j);
    }
  }

  lemma LessIrreflexive(x: uint64)
    ensures !Less(x, x)
  {
  }

  lemma LessTransitive(x: uint64, y: uint64, z: uint64)
    requires Less(x, y) && Less(y, z)
    ensures Less(x, z)
  {
    hide Bit;
    var j :| 0 <= j < 64 && Differs(x, y, j);
    var k :| 0 <= k < 64 && Differs(y, z, k);
    assert Differs(x, z, if j <= k then j else k);
  }

  // ----- Scans -----

  ghost predicate Increasing(codes: seq<uint64>) {
    forall i, j :: 0 <= i < j < |codes| ==> Less(codes[i], codes[j])
  }

  /** `codes` is the beginning of the devices in search order: sorted, no repeats, none skipped. */
  ghost predicate IsPrefix(codes: seq<uint64>, devices: set<uint64>) {
    && Increasing(codes)
    && (forall i :: 0 <= i < |codes| ==> codes[i] in devices)
    && forall d, i :: d in devices && 0 <= i < |codes| && Less(d, codes[i]) ==> d in codes
  }

  /** What holds between passes. */
  ghost predicate Progress(devices: set<uint64>, codes: seq<uint64>, id: uint64, last: int) {
    && last <= 64 && Searching(devices, id, last)
    && IsPrefix(codes, devices)
    && (last == 64 <==> codes == []) && (codes != [] ==> id == codes[|codes| - 1])
    && |codes| <= |devices|
  }

  lemma ProgressStarts(devices: set<uint64>)
    ensures Progress(devices, [], 0, 64)
  {
  }

  lemma ProgressStep(devices: set<uint64>, codes: seq<uint64>, id: uint64, last: int, x: uint64, fork: int)
    requires Progress(devices, codes, id, last)
    requires Next(devices, id, last, x) && Searching(devices, x, fork) && fork < 64
    ensures Progress(devices, codes + [x], x, fork)
  {
    hide Searching, Less;
    var next := codes + [x];
    assert last < 64 ==> codes != [] && id == codes[|codes| - 1];
    forall i | 0 <= i < |codes| ensures Less(codes[i], x) {
      if i < |codes| - 1 {
        LessTransitive(codes[i], id, x);
      }
    }
    forall d | d in devices && Less(d, x) ensures d in next {
      if last < 64 {
        LessTotal(d, id);
      }
      if Less(x, d) {
        LessTransitive(x, d, x);
        LessIrreflexive(x);
      }
    }
    forall i, j | 0 <= i < j < |next| ensures Less(next[i], next[j]) {
    }
    forall d, i | d in devices && 0 <= i < |next| && Less(d, next[i]) ensures d in next {
      if i < |codes| {
        assert d in codes;
      }
    }
    IncreasingSize(next, devices);
  }

  lemma {:induction false} IncreasingSize(codes: seq<uint64>, devices: set<uint64>)
    requires Increasing(codes) && forall i :: 0 <= i < |codes| ==> codes[i] in devices
    ensures |codes| <= |devices|
  {
    hide Less;
    if codes != [] {
      var n := |codes| - 1;
      forall i | 0 <= i < n ensures codes[i] != codes[n] {
        assert Less(codes[i], codes[n]);
        LessIrreflexive(codes[n]);
      }
      IncreasingSize(codes[..n], devices - {codes[n]});
    }
  }

  /** At the end of the search everything has been found. */
  lemma ProgressEnds(devices: set<uint64>, codes: seq<uint64>, id: uint64, last: int)
    requires Progress(devices, codes, id, last) && last < 64 && forall d :: d in devices ==> !Less(id, d)
    ensures Complete(codes, devices)
  {
    hide Searching, Less;
    forall d | d in devices ensures d in codes {
      LessTotal(d, id);
    }
  }

  /** Every device exactly once, in search order. */
  ghost predicate Complete(codes: seq<uint64>, devices: set<uint64>) {
    Increasing(codes) && forall d :: d in devices <==> d in codes
  }

  /**
   * The search as a whole: from ID 0 and LastBitChange 64, calls on a clean bus return every device exactly
   * once, in order, and then 0.
   */
  method SearchAll(bus: Bus) returns (codes: seq<uint64>, code: int)
    requires bus.Clean() && bus.devices != {}
    modifies bus`active, bus`at, bus`complement, bus`slot
    ensures Complete(codes, bus.devices) && code == 0
  {
    hide *;
    var id, last := 0, 64;
    codes, code := [], 1;
    ProgressStarts(bus.devices);
    while code == 1
      invariant bus.Clean() && (code == 0 || code == 1)
      invariant Progress(bus.devices, codes, id, last)
      invariant code == 0 ==> last < 64 && forall d :: d in bus.devices ==> !Less(id, d)
      decreases |bus.devices| - |codes|, code
    {
      ProgressIs(bus.devices, codes, id, last);
      ghost var before, lastBefore := id, last;
      code, id, last := SearchSensor(bus, id, last);
      if code == 1 {
        ProgressStep(bus.devices, codes, before, lastBefore, id, last);
        codes := codes + [id];
        ProgressIs(bus.devices, codes, id, last);
      }
    }
    ProgressEnds(bus.devices, codes, id, last);
  }

  lemma ProgressIs(devices: set<uint64>, codes: seq<uint64>, id: uint64, last: int)
    requires Progress(devices, codes, id, last)
    ensures last <= 64 && Searching(devices, id, last) && |codes| <= |devices| && IsPrefix(codes, devices)
  {
  }
}
