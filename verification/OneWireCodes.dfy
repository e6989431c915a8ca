/** Codes, search order, checksum and retry counts of the 1-Wire scan, in plain numbers. */
module OneWireCodes {
  import opened Bytes
  import opened OneWire
  import opened OneWireScan
  import opened OneWireRuns

  // ----- Bits and search order -----

  lemma {:induction false} BitExact(x: nat, i: nat)
    ensures Bit(x, i) <==> x / Pow2(i) % 2 == 1
  {
    if i > 0 {
      BitExact(x / 2, i - 1);
      HalvedFirst(x, Pow2(i - 1));
    }
  }

  lemma HalvedFirst(x: nat, p: nat)
    requires p > 0
    ensures x / 2 / p == x / (2 * p)
  {
    var q, r := x / 2 / p, x / 2 % p;
    assert x / 2 == p * q + r;
    assert x == 2 * (x / 2) + x % 2;
    assert 2 * (p * q) == (2 * p) * q by { Doubled(p, q); }
    assert x == (2 * p) * q + (2 * r + x % 2);
    Quotient(x, 2 * p, q, 2 * r + x % 2);
  }

  lemma Doubled(p: nat, q: nat)
    ensures 2 * (p * q) == (2 * p) * q
  {
  }

  lemma Quotient(n: nat, m: nat, q: nat, r: nat)
    requires m > 0 && n == m * q + r && r < m
    ensures n / m == q
  {
    var d := n / m - q;
    assert n == m * (n / m) + n % m;
    assert m * (n / m) - m * q == m * d;
    Multiple(m, d);
  }

  lemma Multiple(m: int, d: int)
    requires m > 0
    ensures d >= 1 ==> m * d >= m
    ensures d <= -1 ==> m * d <= -m
  {
    assert m * d - m == m * (d - 1) && m * d + m == m * (d + 1);
  }

  /** The number whose n bits are those of `x` the other way round. */
  function Mirrored(x: nat, n: nat): (m: nat)
    ensures m < Pow2(n)
    decreases n
  {
    if n == 0 then 0 else (if x % 2 == 1 then Pow2(n - 1) else 0) + Mirrored(x / 2, n - 1)
  }

  /** Search order is the order of the mirrored codes. */
  lemma LessExact(x: uint64, y: uint64)
    ensures Less(x, y) <==> Mirrored(x, 64) < Mirrored(y, 64)
  {
    hide Mirrored, Before;
    BeforeExact(x, y, 64);
  }

  lemma {:induction false} BeforeExact(x: nat, y: nat, n: nat)
    ensures Before(x, y, n) <==> Mirrored(x, n) < Mirrored(y, n)
    decreases n
  {
    hide Before;
    if n == 0 {
      NothingBefore(x, y);
    } else {
      BeforeExact(x / 2, y / 2, n - 1);
      BeforeShift(x, y, n);
    }
  }

  lemma NothingBefore(x: nat, y: nat)
    ensures !Before(x, y, 0)
  {
  }

  /** The first bit decides, or the others do. */
  lemma BeforeShift(x: nat, y: nat, n: nat)
    requires n > 0
    ensures Before(x, y, n) <==> x % 2 < y % 2 || (x % 2 == y % 2 && Before(x / 2, y / 2, n - 1))
  {
    if Before(x, y, n) {
      var j :| 0 <= j < n && Differs(x, y, j);
      if j > 0 {
        assert Bit(x, 0) == Bit(y, 0);
        ShiftDiffers(x, y, j);
      }
    }
    if x % 2 < y % 2 {
      assert Differs(x, y, 0);
    }
    if x % 2 == y % 2 && Before(x / 2, y / 2, n - 1) {
      var j :| 0 <= j < n - 1 && Differs(x / 2, y / 2, j);
      ShiftDiffers(x, y, j + 1);
    }
  }

  lemma ShiftDiffers(x: nat, y: nat, j: nat)
    requires j > 0
    ensures x % 2 == y % 2 ==> (Differs(x, y, j) <==> Differs(x / 2, y / 2, j - 1))
  {
    forall i | 0 <= i < j - 1 ensures (Bit(x, i + 1) == Bit(y, i + 1)) == (Bit(x / 2, i) == Bit(y / 2, i)) {
    }
    if x % 2 == y % 2 {
      if Agree(x, y, j) {
        forall i | 0 <= i < j - 1 ensures Bit(x / 2, i) == Bit(y / 2, i) {
          assert Bit(x, i + 1) == Bit(y, i + 1);
        }
      }
      if Agree(x / 2, y / 2, j - 1) {
        forall i | 0 <= i < j ensures Bit(x, i) == Bit(y, i) {
          assert i > 0 ==> Bit(x / 2, i - 1) == Bit(y / 2, i - 1);
        }
      }
    }
  }

  // ----- What a search returns -----

  /** The return codes: 0 when nothing is left, -1 without presence, 1 or -2 otherwise. */
  lemma CodesExact(devices: set<uint64>, presence: bool, glitches: set<nat>, id: uint64, last: int)
    ensures var a := Search(devices, presence, glitches, id, last);
            && (a.code == 0 <==> last < 0) && (a.code == -1 <==> last >= 0 && (!presence || devices == {}))
            && (a.code in {1, -2} <==> last >= 0 && presence && devices != {})
  {
    hide SearchFrom, Prepared;
    if last >= 0 {
      FromCodes(devices, glitches, Prepared(id, last), 0, -1);
    }
  }

  lemma {:induction false} FromCodes(active: set<uint64>, glitches: set<nat>, w: uint64, k: nat, fork: int)
    ensures SearchFrom(active, glitches, w, k, fork).code in {1, -2}
    decreases 64 - k
  {
    hide Heard, Staying, Chosen, ChosenCode, Bit;
    if k < 64 {
      var noBit, bit := Heard(active, glitches, k, 2 * k, false), Heard(active, glitches, k, 2 * k + 1, true);
      if !(bit && noBit) {
        FromCodes(Staying(active, k, Chosen(w, k, noBit, bit)), glitches, ChosenCode(w, k, noBit, bit), k + 1,
                  if !bit && !noBit && !Bit(w, k) then k else fork);
      }
    }
  }

  // ----- The checksum -----

  /** A code known to be right: family 0x02, serial number 0x1B81C, checksum 0xA2. */
  const EXAMPLE: uint64 := 0xa200_0000_01b8_1c02

  lemma ExampleSteps()
    ensures ShiftBits(0, 0x02, 8) == 0xbc && ShiftBits(0xbc, 0x1c, 8) == 0xaf
    ensures ShiftBits(0xaf, 0xb8, 8) == 0x1e && ShiftBits(0x1e, 0x01, 8) == 0xdc
    ensures ShiftBits(0xdc, 0x00, 8) == 0xf4 && ShiftBits(0xf4, 0x00, 8) == 0x15 && ShiftBits(0x15, 0x00, 8) == 0xa2
  {
    TwoNibbles(0x00, 0x02, 0x23, 0x00, 0xbc);
    TwoNibbles(0xbc, 0x1c, 0x0b, 0x01, 0xaf);
    TwoNibbles(0xaf, 0xb8, 0xf2, 0x0b, 0x1e);
    TwoNibbles(0x1e, 0x01, 0x75, 0x00, 0xdc);
    TwoNibbles(0xdc, 0x00, 0xc7, 0x00, 0xf4);
    TwoNibbles(0xf4, 0x00, 0x49, 0x00, 0x15);
    TwoNibbles(0x15, 0x00, 0xda, 0x00, 0xa2);
  }

  lemma TwoNibbles(crc: bv8, data: bv8, crc': bv8, data': bv8, end: bv8)
    requires Nibble(crc, data) == crc' && data >> 4 == data' && Nibble(crc', data') == end
    ensures ShiftBits(crc, data, 8) == end
  {
    hide Shift, Nibble;
    FourShifts(crc, data, 8);
    FourShifts(crc', data', 4);
    NoMoreBits(end, data' >> 4);
  }

  /** Four bits at once. */
  function Nibble(crc: bv8, data: bv8): bv8 {
    Shift(Shift(Shift(Shift(crc, data & 1 == 1), data & 2 == 2), data & 4 == 4), data & 8 == 8)
  }

  lemma FourShifts(crc: bv8, data: bv8, n: nat)
    requires n >= 4
    ensures ShiftBits(crc, data, n) == ShiftBits(Nibble(crc, data), data >> 4, n - 4)
  {
    hide Shift;
    var c1 := Shift(crc, data & 1 == 1);
    var c2 := Shift(c1, data & 2 == 2);
    var c3 := Shift(c2, data & 4 == 4);
    var c4 := Shift(c3, data & 8 == 8);
    Places(data);
    assert ShiftBits(crc, data, n) == ShiftBits(c1, data >> 1, n - 1);
    assert ShiftBits(c1, data >> 1, n - 1) == ShiftBits(c2, data >> 2, n - 2);
    assert ShiftBits(c2, data >> 2, n - 2) == ShiftBits(c3, data >> 3, n - 3);
    assert ShiftBits(c3, data >> 3, n - 3) == ShiftBits(c4, data >> 4, n - 4);
  }

  lemma Places(data: bv8)
    ensures (data >> 1) & 1 == 1 <==> data & 2 == 2
    ensures (data >> 2) & 1 == 1 <==> data & 4 == 4
    ensures (data >> 3) & 1 == 1 <==> data & 8 == 8
    ensures data >> 1 >> 1 == data >> 2 && data >> 2 >> 1 == data >> 3 && data >> 3 >> 1 == data >> 4
  {
  }

  lemma ExampleCrc()
    ensures Crc8([0x02, 0x1c, 0xb8, 0x01, 0, 0, 0]) == 0xa2
  {
    hide Crc8, ShiftBits;
    var d: seq<bv8> := [0x02, 0x1c, 0xb8, 0x01, 0, 0, 0];
    ExampleSteps();
    EmptyCrc();
    assert d[..0] == [] && d[..7] == d;
    CrcNext(d, 0);
    CrcNext(d, 1);
    CrcNext(d, 2);
    CrcNext(d, 3);
    CrcNext(d, 4);
    CrcNext(d, 5);
    CrcNext(d, 6);
  }

  /** And the code as a whole passes its check. */
  lemma ExampleOk()
    ensures CrcOk(EXAMPLE)
  {
    hide Crc8, Octet, Octets;
    ExampleOctets();
    ExampleCrc();
  }

  lemma ExampleOctets()
    ensures Octets(EXAMPLE, 7) == [0x02, 0x1c, 0xb8, 0x01, 0, 0, 0]
    ensures Octet(EXAMPLE / 0x100_0000_0000_0000) == 0xa2
  {
    OctetValues();
    assert 0xa200000001b81c02 % 0x100 == 0x2 && 0xa200000001b81c02 / 0x100 == 0xa200000001b81c;
    assert 0xa200000001b81c % 0x100 == 0x1c && 0xa200000001b81c / 0x100 == 0xa200000001b8;
    assert 0xa200000001b8 % 0x100 == 0xb8 && 0xa200000001b8 / 0x100 == 0xa200000001;
    assert 0xa200000001 % 0x100 == 0x1 && 0xa200000001 / 0x100 == 0xa2000000;
    assert 0xa2000000 % 0x100 == 0x0 && 0xa2000000 / 0x100 == 0xa20000;
    assert 0xa20000 % 0x100 == 0x0 && 0xa20000 / 0x100 == 0xa200;
    assert 0xa200 % 0x100 == 0x0 && 0xa200 / 0x100 == 0xa2;
    assert EXAMPLE / 0x100_0000_0000_0000 == 0xa2;
    hide Octet;
  }

  lemma OctetValues()
    ensures Octet(0x02) == 0x02 && Octet(0x1c) == 0x1c && Octet(0xb8) == 0xb8 && Octet(0x01) == 0x01
    ensures Octet(0) == 0 && Octet(0xa2) == 0xa2
    ensures forall x: nat :: Octet(x) == Octet(x % 0x100)
  {
    OctetsLow();
    LowOctets();
    HighOctets();
    hide Octet;
  }

  /** An octet of a code is its number modulo 256. */
  lemma OctetsLow()
    ensures forall x: nat :: Octet(x) == Octet(x % 0x100)
  {
  }

  lemma LowOctets()
    ensures Octet(0) == 0 && Octet(0x01) == 0x01 && Octet(0x02) == 0x02
  {
  }

  lemma HighOctets()
    ensures Octet(0x1c) == 0x1c && Octet(0xb8) == 0xb8 && Octet(0xa2) == 0xa2
  {
    Octet1c();
    OctetB8();
    OctetA2();
    hide Octet;
  }

  lemma Octet1c()
    ensures Octet(0x1c) == 0x1c
  {
  }

  lemma OctetB8()
    ensures Octet(0xb8) == 0xb8
  {
  }

  lemma OctetA2()
    ensures Octet(0xa2) == 0xa2
  {
  }

  // ----- Retries and finds -----

  /** The passes of a printing scan that count as retries, and those that find something, are counted one by one. */
  lemma {:induction false} CountsExact(p: seq<Pass>)
    ensures Retries(true, p) == |Failed(p)| && Finds(true, p) == |p| - |Failed(p)|
    ensures Finds(false, p) == |Read(p)|
    decreases |p|
  {
    hide Clean, Failed, Read;
    FailedNext(p);
    ReadNext(p);
    if p != [] {
      CountsExact(p[..|p| - 1]);
    }
  }

  function Failed(p: seq<Pass>): set<nat> {
    set i | 0 <= i < |p| && !Clean(p[i])
  }

  function Read(p: seq<Pass>): set<nat> {
    set i | 0 <= i < |p| && Clean(p[i]) && p[i].readable
  }

  lemma FailedNext(p: seq<Pass>)
    ensures p == [] ==> |Failed(p)| == 0
    ensures p != [] ==>
      var k := |p| - 1;
      |Failed(p)| == |Failed(p[..k])| + if Clean(p[k]) then 0 else 1
  {
    hide Clean;
    if p != [] {
      var k := |p| - 1;
      assert Failed(p) == if Clean(p[k]) then Failed(p[..k]) else Failed(p[..k]) + {k};
    }
  }

  lemma ReadNext(p: seq<Pass>)
    ensures p == [] ==> |Read(p)| == 0
    ensures p != [] ==>
      var k := |p| - 1;
      |Read(p)| == |Read(p[..k])| + if Clean(p[k]) && p[k].readable then 1 else 0
  {
    hide Clean;
    if p != [] {
      var k := |p| - 1;
      assert Read(p) == if Clean(p[k]) && p[k].readable then Read(p[..k]) + {k} else Read(p[..k]);
    }
  }
}
