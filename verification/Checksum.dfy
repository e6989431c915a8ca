/** CRC-16/MCRF4XX of checksum.h: the table-free nibble form and the bit-serial CRC it computes. */
module Checksum {
  import opened Bytes

  const X25_INIT_CRC: bv16 := 0xffff

  /** What crc_accumulate shifts back into the register: both nibbles of the mixed octet. */
  function Mix(low: bv8): bv8 {
    low ^ (low << 4)
  }

  function LowOctet(crc: bv16): bv8 {
    (crc & 0xff) as bv8
  }

  function Combine(crc: bv16, tmp: bv16): bv16 {
    (crc >> 8) ^ (tmp << 8) ^ (tmp << 3) ^ (tmp >> 4)
  }

  /** crc_accumulate in the source's 8- and 16-bit wrap-around arithmetic. */
  function AccumulateBits(data: bv8, crc: bv16): bv16 {
    Combine(crc, Mix(data ^ LowOctet(crc)) as bv16)
  }

  function Accumulate(data: byte, crc: bv16): bv16 {
    AccumulateBits(data as bv8, crc)
  }

  /** One step of the defining shift register: LSB first, reflected polynomial 0x8408. */
  function ShiftBit(crc: bv16): bv16 {
    if crc & 1 == 1 then (crc >> 1) ^ 0x8408 else crc >> 1
  }

  function ShiftBits(crc: bv16, n: nat): bv16
    decreases n
  {
    if n == 0 then crc else ShiftBits(ShiftBit(crc), n - 1)
  }

  /** The CRC by definition: add the octet to the register, then shift eight bits out. */
  function BitSerialBits(data: bv8, crc: bv16): bv16 {
    ShiftBits(crc ^ (data as bv16), 8)
  }

  function BitSerial(data: byte, crc: bv16): bv16 {
    BitSerialBits(data as bv8, crc)
  }

  /** The checksum of a byte string, continuing from an accumulator. */
  function Crc(crc: bv16, s: seq<byte>): bv16 {
    if s == [] then crc else Accumulate(s[|s| - 1], Crc(crc, s[..|s| - 1]))
  }

  /** The same checksum by its definition. */
  function CrcBySerial(crc: bv16, s: seq<byte>): bv16 {
    if s == [] then crc else BitSerial(s[|s| - 1], CrcBySerial(crc, s[..|s| - 1]))
  }

  // ----- The nibble form is the bit-serial CRC -----

  /** Four shifts at once: the polynomial times the nibble that falls out. */
  function Nibble(crc: bv16): bv16 {
    var n := crc & 0xf;
    (crc >> 4) ^ (n << 12) ^ (n << 7) ^ n
  }

  lemma FourShifts(crc: bv16, n: nat)
    requires n >= 4
    ensures ShiftBits(crc, n) == ShiftBits(Nibble(crc), n - 4)
  {
    var two := ShiftBit(ShiftBit(crc));
    assert ShiftBits(crc, n) == ShiftBits(two, n - 2);
    assert ShiftBits(two, n - 2) == ShiftBits(ShiftBit(ShiftBit(two)), n - 4);
    assert ShiftBit(ShiftBit(two)) == Nibble(crc);
  }

  lemma MixIsTwoNibbles(low: bv8, n1: bv16, n2: bv16)
    requires n1 == (low as bv16) & 0xf && n2 == ((low as bv16) >> 4) ^ n1
    ensures Mix(low) as bv16 == n1 | (n2 << 4)
  {
  }

  /** Both forms come to this, for the high part of x and the two nibbles that fall out of it. */
  function Joined(x: bv16, n1: bv16, n2: bv16): bv16 {
    (x >> 8) ^ (n1 << 8) ^ (n1 << 3) ^ (n2 << 12) ^ (n2 << 7) ^ n2
  }

  lemma ShiftedNibbles(t: bv16, n1: bv16, n2: bv16)
    requires n1 < 16 && n2 < 16 && t == n1 | (n2 << 4)
    ensures t << 8 == (n1 << 8) ^ (n2 << 12) && t << 3 == (n1 << 3) ^ (n2 << 7) && t >> 4 == n2
  {
  }

  lemma Regroup(a: bv16, b: bv16, c: bv16, d: bv16, e: bv16, f: bv16)
    ensures a ^ (b ^ c) ^ (d ^ e) ^ f == a ^ b ^ d ^ c ^ e ^ f
  {
  }

  /** The parts of both forms, named so that the solver never sees their bits together. */
  lemma CombineParts(crc: bv16, t: bv16, x: bv16, n1: bv16, n2: bv16,
                     a: bv16, b1: bv16, b2: bv16, c1: bv16, c2: bv16)
    requires a == crc >> 8 == x >> 8 && b1 == n1 << 8 && b2 == n2 << 12 && c1 == n1 << 3 && c2 == n2 << 7
    requires t << 8 == b1 ^ b2 && t << 3 == c1 ^ c2 && t >> 4 == n2
    ensures Combine(crc, t) == a ^ (b1 ^ b2) ^ (c1 ^ c2) ^ n2
    ensures Joined(x, n1, n2) == a ^ b1 ^ c1 ^ b2 ^ c2 ^ n2
  {
  }

  lemma CombineJoins(crc: bv16, x: bv16, n1: bv16, n2: bv16)
    requires n1 < 16 && n2 < 16 && crc >> 8 == x >> 8
    ensures Combine(crc, n1 | (n2 << 4)) == Joined(x, n1, n2)
  {
    hide *;
    var t := n1 | (n2 << 4);
    var a, b1, b2, c1, c2 := x >> 8, n1 << 8, n2 << 12, n1 << 3, n2 << 7;
    ShiftedNibbles(t, n1, n2);
    CombineParts(crc, t, x, n1, n2, a, b1, b2, c1, c2);
    Regroup(a, b1, b2, c1, c2, n2);
  }

  lemma XoredIn(data: bv8, crc: bv16, x: bv16)
    requires x == crc ^ (data as bv16)
    ensures crc >> 8 == x >> 8 && (data ^ LowOctet(crc)) as bv16 == x & 0xff
  {
  }

  lemma FirstNibble(x: bv16, n1: bv16, n2: bv16)
    requires n1 == x & 0xf && n2 == ((x >> 4) & 0xf) ^ n1
    ensures Nibble(x) & 0xf == n2 && Nibble(x) >> 4 == (x >> 8) ^ (n1 << 8) ^ (n1 << 3)
  {
  }

  lemma SecondNibble(x: bv16, y: bv16, n1: bv16, n2: bv16)
    requires y & 0xf == n2 && y >> 4 == (x >> 8) ^ (n1 << 8) ^ (n1 << 3)
    ensures Nibble(y) == (x >> 8) ^ (n1 << 8) ^ (n1 << 3) ^ (n2 << 12) ^ (n2 << 7) ^ n2
  {
  }

  lemma JoinedUnfolds(x: bv16, n1: bv16, n2: bv16)
    ensures Joined(x, n1, n2) == (x >> 8) ^ (n1 << 8) ^ (n1 << 3) ^ (n2 << 12) ^ (n2 << 7) ^ n2
  {
  }

  lemma TwoNibbles(x: bv16, n1: bv16, n2: bv16)
    requires n1 == x & 0xf && n2 == ((x >> 4) & 0xf) ^ n1
    ensures Nibble(Nibble(x)) == Joined(x, n1, n2)
  {
    hide *;
    FirstNibble(x, n1, n2);
    SecondNibble(x, Nibble(x), n1, n2);
    JoinedUnfolds(x, n1, n2);
  }

  /** The nibble form refines the shift register, for every octet and every accumulator. */
  lemma NibbleForm(data: byte, crc: bv16)
    ensures Accumulate(data, crc) == BitSerial(data, crc)
  {
    hide *;
    NibbleFormBits(data as bv8, crc);
    AsBits(data, crc);
  }

  lemma NibblesOfMixed(low: bv8, x: bv16)
    requires low as bv16 == x & 0xff
    ensures (low as bv16) & 0xf == x & 0xf && ((low as bv16) >> 4) ^ (x & 0xf) == ((x >> 4) & 0xf) ^ (x & 0xf)
    ensures x & 0xf < 16 && ((x >> 4) & 0xf) ^ (x & 0xf) < 16
  {
  }

  lemma MixedNibbles(crc: bv16, low: bv8, x: bv16)
    requires crc >> 8 == x >> 8 && low as bv16 == x & 0xff
    ensures Combine(crc, Mix(low) as bv16) == Nibble(Nibble(x))
  {
    hide *;
    var n1, n2 := x & 0xf, ((x >> 4) & 0xf) ^ (x & 0xf);
    NibblesOfMixed(low, x);
    MixIsTwoNibbles(low, n1, n2);
    CombineJoins(crc, x, n1, n2);
    TwoNibbles(x, n1, n2);
  }

  lemma AsBits(d: byte, crc: bv16)
    ensures Accumulate(d, crc) == AccumulateBits(d as bv8, crc) && BitSerial(d, crc) == BitSerialBits(d as bv8, crc)
  {
  }

  lemma Unfolded(d: bv8, crc: bv16)
    ensures AccumulateBits(d, crc) == Combine(crc, Mix(d ^ LowOctet(crc)) as bv16)
    ensures BitSerialBits(d, crc) == ShiftBits(crc ^ (d as bv16), 8)
  {
  }

  lemma NibbleFormBits(d: bv8, crc: bv16)
    ensures AccumulateBits(d, crc) == BitSerialBits(d, crc)
  {
    hide *;
    Unfolded(d, crc);
    var x := crc ^ (d as bv16);
    XoredIn(d, crc, x);
    MixedNibbles(crc, d ^ LowOctet(crc), x);
    FourShifts(x, 8);
    FourShifts(Nibble(x), 4);
    NoShift(Nibble(Nibble(x)));
  }

  lemma NoShift(crc: bv16)
    ensures ShiftBits(crc, 0) == crc
  {
  }

  lemma {:induction false} CrcIsBitSerial(crc: bv16, s: seq<byte>)
    ensures Crc(crc, s) == CrcBySerial(crc, s)
  {
    if s != [] {
      CrcIsBitSerial(crc, s[..|s| - 1]);
      NibbleForm(s[|s| - 1], Crc(crc, s[..|s| - 1]));
    }
  }

  /** Accumulating a header and then a payload is the checksum of their concatenation. */
  lemma {:induction false} CrcAppend(crc: bv16, s: seq<byte>, t: seq<byte>)
    ensures Crc(crc, s + t) == Crc(Crc(crc, s), t)
  {
    if t == [] {
      assert s + t == s;
    } else {
      assert (s + t)[..|s + t| - 1] == s + t[..|t| - 1];
      CrcAppend(crc, s, t[..|t| - 1]);
    }
  }

  lemma CrcEmpty(crc: bv16)
    ensures Crc(crc, []) == crc
  {
  }

  lemma CrcSnoc(crc: bv16, s: seq<byte>, c: byte)
    ensures Crc(crc, s + [c]) == Accumulate(c, Crc(crc, s))
  {
    hide Accumulate;
    assert (s + [c])[..|s|] == s;
  }

  /** crc_calculate: the loop over a buffer from the initial value. */
  method Calculate(buffer: array<byte>, length: nat) returns (crc: bv16)
    requires length <= buffer.Length
    ensures crc == CrcBySerial(X25_INIT_CRC, buffer[..length])
  {
    crc := AccumulateBuffer(X25_INIT_CRC, buffer, length);
    CrcIsBitSerial(X25_INIT_CRC, buffer[..length]);
  }

  /** crc_accumulate_buffer: the same loop from an accumulator that is already running. */
  method AccumulateBuffer(start: bv16, buffer: array<byte>, length: nat) returns (crc: bv16)
    requires length <= buffer.Length
    ensures crc == Crc(start, buffer[..length])
  {
    crc := start;
    for i := 0 to length
      invariant crc == Crc(start, buffer[..i])
    {
      crc := Accumulate(buffer[i], crc);
      assert buffer[..i + 1][..i] == buffer[..i];
    }
  }

  // ----- Error detection -----

  lemma MixInvertible(low: bv8)
    ensures var tmp := Mix(low); low == tmp ^ (tmp << 4)
  {
  }

  lemma HighOctetShowsMix(crc: bv16, tmp: bv8)
    ensures var h := (Combine(crc, tmp as bv16) >> 8) as bv8; tmp == h ^ (h >> 5)
  {
  }

  lemma LowOctetShowsHigh(crc: bv16, t: bv16)
    requires t < 0x100
    ensures crc >> 8 == (Combine(crc, t) ^ (t << 3) ^ (t >> 4)) & 0xff
  {
  }

  lemma CancelXor(d: bv8, a: bv8, b: bv8)
    requires d ^ a == d ^ b || a ^ d == b ^ d
    ensures a == b
  {
  }

  lemma JoinOctets(a: bv16, b: bv16)
    requires a >> 8 == b >> 8 && LowOctet(a) == LowOctet(b)
    ensures a == b
  {
  }

  /** Equal accumulators came from equal high octets and equal mixed low octets. */
  lemma Uncombine(d: bv8, a: bv16, e: bv8, b: bv16)
    requires (AccumulateBits(d, a) >> 8) as bv8 == (AccumulateBits(e, b) >> 8) as bv8
    ensures d ^ LowOctet(a) == e ^ LowOctet(b)
    ensures AccumulateBits(d, a) == AccumulateBits(e, b) ==> a >> 8 == b >> 8
  {
    var la, lb := d ^ LowOctet(a), e ^ LowOctet(b);
    HighOctetShowsMix(a, Mix(la));
    HighOctetShowsMix(b, Mix(lb));
    MixInvertible(la);
    MixInvertible(lb);
    LowOctetShowsHigh(a, Mix(la) as bv16);
    LowOctetShowsHigh(b, Mix(lb) as bv16);
  }

  lemma AccumulateInjective(d: bv8, a: bv16, b: bv16)
    requires a != b
    ensures AccumulateBits(d, a) != AccumulateBits(d, b)
  {
    hide *;
    if AccumulateBits(d, a) == AccumulateBits(d, b) {
      Uncombine(d, a, d, b);
      CancelXor(d, LowOctet(a), LowOctet(b));
      JoinOctets(a, b);
    }
  }

  /** Octets that leave the same high octet behind a common accumulator are the same. */
  lemma HighOctetDetermines(crc: bv16, d: bv8, e: bv8)
    requires (AccumulateBits(d, crc) >> 8) as bv8 == (AccumulateBits(e, crc) >> 8) as bv8
    ensures d == e
  {
    hide *;
    Uncombine(d, crc, e, crc);
    CancelXor(LowOctet(crc), d, e);
  }

  lemma TwoOctetsInjective(crc: bv16, a0: bv8, a1: bv8, b0: bv8, b1: bv8)
    requires AccumulateBits(a1, AccumulateBits(a0, crc)) == AccumulateBits(b1, AccumulateBits(b0, crc))
    ensures a0 == b0 && a1 == b1
  {
    hide *;
    Uncombine(a1, AccumulateBits(a0, crc), b1, AccumulateBits(b0, crc));
    HighOctetDetermines(crc, a0, b0);
    HighOctetDetermines(AccumulateBits(a0, crc), a1, b1);
  }

  lemma {:induction false} CrcInjective(a: bv16, b: bv16, s: seq<byte>)
    requires a != b
    ensures Crc(a, s) != Crc(b, s)
  {
    if s != [] {
      var front := s[..|s| - 1];
      CrcInjective(a, b, front);
      AccumulateInjective(s[|s| - 1] as bv8, Crc(a, front), Crc(b, front));
    }
  }

  lemma OctetRoundTrip(x: byte)
    ensures (x as bv8) as int == x
  {
    // Split by the high bits, which keeps the solver's search short.
    if x < 0x20 {} else if x < 0x40 {} else if x < 0x60 {} else if x < 0x80 {}
    else if x < 0xa0 {} else if x < 0xc0 {} else if x < 0xe0 {} else {}
  }

  lemma {:induction false} CrcOfTwo(crc: bv16, s: seq<byte>)
    requires |s| == 2
    ensures Crc(crc, s) == Accumulate(s[1], Accumulate(s[0], crc))
  {
    assert s[..1] == [s[0]] && s[..1][..0] == [];
    assert Crc(crc, s[..1]) == Accumulate(s[0], crc);
  }

  lemma TwoOctetsDetected(c: bv16, a: seq<byte>, b: seq<byte>)
    requires |a| == |b| == 2 && a != b
    ensures Crc(c, a) != Crc(c, b)
  {
    CrcOfTwo(c, a);
    CrcOfTwo(c, b);
    TwoOctetsInjectiveAsBytes(c, a[0], a[1], b[0], b[1]);
    assert a[0] != b[0] || a[1] != b[1];
  }

  lemma TwoOctetsInjectiveAsBytes(c: bv16, a0: byte, a1: byte, b0: byte, b1: byte)
    ensures Accumulate(a1, Accumulate(a0, c)) == Accumulate(b1, Accumulate(b0, c)) ==> a0 == b0 && a1 == b1
  {
    hide *;
    AsBits(a0, c);
    AsBits(b0, c);
    AsBits(a1, Accumulate(a0, c));
    AsBits(b1, Accumulate(b0, c));
    if Accumulate(a1, Accumulate(a0, c)) == Accumulate(b1, Accumulate(b0, c)) {
      TwoOctetsInjective(c, a0 as bv8, a1 as bv8, b0 as bv8, b1 as bv8);
      OctetRoundTrip(a0);
      OctetRoundTrip(a1);
      OctetRoundTrip(b0);
      OctetRoundTrip(b1);
    }
  }

  /** No error confined to two adjacent octets goes unnoticed, whatever surrounds it. */
  lemma DetectsTwoOctetBurst(crc: bv16, p: seq<byte>, a: seq<byte>, b: seq<byte>, q: seq<byte>)
    requires |a| == |b| == 2 && a != b
    ensures Crc(crc, p + a + q) != Crc(crc, p + b + q)
  {
    hide *;
    var c := Crc(crc, p);
    CrcAppend(crc, p + a, q);
    CrcAppend(crc, p, a);
    CrcAppend(crc, p + b, q);
    CrcAppend(crc, p, b);
    TwoOctetsDetected(c, a, b);
    CrcInjective(Crc(c, a), Crc(c, b), q);
  }
}
