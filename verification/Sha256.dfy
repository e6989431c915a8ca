/** SHA-256 (FIPS 180-4) and the streaming context of mavlink_sha256.h that computes its first 48 bits. */
module Sha256 {
  import opened Bytes

  // ----- FIPS 180-4, sections 4.1.2 and 4.2.2 -----

  function Rotr(x: bv32, n: int): bv32
    requires 0 < n < 32
  {
    (x >> n) | (x << (32 - n))
  }

  /** Addition modulo 2^32. */
  function Plus(x: bv32, y: bv32): bv32 { x + y }

  function Ch(x: bv32, y: bv32, z: bv32): bv32 { (x & y) ^ (!x & z) }
  function Maj(x: bv32, y: bv32, z: bv32): bv32 { (x & y) ^ (x & z) ^ (y & z) }
  function BigSigma0(x: bv32): bv32 { Rotr(x, 2) ^ Rotr(x, 13) ^ Rotr(x, 22) }
  function BigSigma1(x: bv32): bv32 { Rotr(x, 6) ^ Rotr(x, 11) ^ Rotr(x, 25) }
  function SmallSigma0(x: bv32): bv32 { Rotr(x, 7) ^ Rotr(x, 18) ^ (x >> 3) }
  function SmallSigma1(x: bv32): bv32 { Rotr(x, 17) ^ Rotr(x, 19) ^ (x >> 10) }

  const K: seq<bv32> :=
    [0x428a2f98, 0x71374491, 0xb5c0fbcf, 0xe9b5dba5, 0x3956c25b, 0x59f111f1, 0x923f82a4, 0xab1c5ed5] +
    [0xd807aa98, 0x12835b01, 0x243185be, 0x550c7dc3, 0x72be5d74, 0x80deb1fe, 0x9bdc06a7, 0xc19bf174] +
    [0xe49b69c1, 0xefbe4786, 0x0fc19dc6, 0x240ca1cc, 0x2de92c6f, 0x4a7484aa, 0x5cb0a9dc, 0x76f988da] +
    [0x983e5152, 0xa831c66d, 0xb00327c8, 0xbf597fc7, 0xc6e00bf3, 0xd5a79147, 0x06ca6351, 0x14292967] +
    [0x27b70a85, 0x2e1b2138, 0x4d2c6dfc, 0x53380d13, 0x650a7354, 0x766a0abb, 0x81c2c92e, 0x92722c85] +
    [0xa2bfe8a1, 0xa81a664b, 0xc24b8b70, 0xc76c51a3, 0xd192e819, 0xd6990624, 0xf40e3585, 0x106aa070] +
    [0x19a4c116, 0x1e376c08, 0x2748774c, 0x34b0bcb5, 0x391c0cb3, 0x4ed8aa4a, 0x5b9cca4f, 0x682e6ff3] +
    [0x748f82ee, 0x78a5636f, 0x84c87814, 0x8cc70208, 0x90befffa, 0xa4506ceb, 0xbef9a3f7, 0xc67178f2]

  // ----- The hash by definition: sections 5.1.1, 5.3.3 and 6.2.2 -----

  datatype Chain = Chain(a: bv32, b: bv32, c: bv32, d: bv32, e: bv32, f: bv32, g: bv32, h: bv32)

  const INITIAL := Chain(0x6a09e667, 0xbb67ae85, 0x3c6ef372, 0xa54ff53a,
                         0x510e527f, 0x9b05688c, 0x1f83d9ab, 0x5be0cd19)

  function ScheduleWord(w2: bv32, w7: bv32, w15: bv32, w16: bv32): bv32 {
    Plus(Plus(Plus(SmallSigma1(w2), w7), SmallSigma0(w15)), w16)
  }

  function T1(e: bv32, f: bv32, g: bv32, h: bv32, k: bv32, w: bv32): bv32 {
    Plus(Plus(Plus(Plus(h, BigSigma1(e)), Ch(e, f, g)), k), w)
  }

  function T2(a: bv32, b: bv32, c: bv32): bv32 {
    Plus(BigSigma0(a), Maj(a, b, c))
  }

  /** The message schedule of one block. */
  function Schedule(m: seq<bv32>, t: nat): bv32
    requires |m| == 16
  {
    if t < 16 then m[t]
    else ScheduleWord(Schedule(m, t - 2), Schedule(m, t - 7), Schedule(m, t - 15), Schedule(m, t - 16))
  }

  function Round(v: Chain, k: bv32, w: bv32): Chain {
    var t1 := T1(v.e, v.f, v.g, v.h, k, w);
    var t2 := T2(v.a, v.b, v.c);
    Chain(Plus(t1, t2), v.a, v.b, v.c, Plus(v.d, t1), v.e, v.f, v.g)
  }

  function Rounds(v: Chain, m: seq<bv32>, t: nat): Chain
    requires |m| == 16 && t <= 64
  {
    if t == 0 then v else Round(Rounds(v, m, t - 1), K[t - 1], Schedule(m, t - 1))
  }

  function Add(v: Chain, w: Chain): Chain {
    Chain(Plus(v.a, w.a), Plus(v.b, w.b), Plus(v.c, w.c), Plus(v.d, w.d),
          Plus(v.e, w.e), Plus(v.f, w.f), Plus(v.g, w.g), Plus(v.h, w.h))
  }

  function Compress(v: Chain, m: seq<bv32>): Chain
    requires |m| == 16
  {
    Add(v, Rounds(v, m, 64))
  }

  function BigEndianWord(b0: byte, b1: byte, b2: byte, b3: byte): bv32 {
    ((b0 as bv32) << 24) | ((b1 as bv32) << 16) | ((b2 as bv32) << 8) | (b3 as bv32)
  }

  function Words(block: seq<byte>): (m: seq<bv32>)
    requires |block| == 64
    ensures |m| == 16
  {
    seq(16, i requires 0 <= i < 16 =>
      BigEndianWord(block[4 * i], block[4 * i + 1], block[4 * i + 2], block[4 * i + 3]))
  }

  /** The chain value after the first n blocks of the data. */
  function Blocks(data: seq<byte>, n: nat): Chain
    requires 64 * n <= |data|
  {
    if n == 0 then INITIAL else Compress(Blocks(data, n - 1), Words(data[64 * n - 64..64 * n]))
  }

  function WordField(w: uint32): (f: seq<byte>)
    ensures |f| == 4
  {
    [w / 0x100_0000, w / 0x1_0000 % 0x100, w / 0x100 % 0x100, w % 0x100]
  }

  /** The low 64 bits of a bit count, most significant octet first. */
  function LengthField(bits: nat): (f: seq<byte>)
    ensures |f| == 8
  {
    WordField(bits / 0x1_0000_0000 % 0x1_0000_0000) + WordField(bits % 0x1_0000_0000)
  }

  /** Padding: a one bit, the smallest number of zeros that leaves room for the length, the length. */
  function Padding(n: nat): seq<byte> {
    [0x80] + seq((55 - n) % 64, _ => 0) + LengthField(8 * n)
  }

  function PaddedBlocks(n: nat): nat {
    (n + 72) / 64
  }

  lemma PaddingFills(n: nat)
    ensures n + |Padding(n)| == 64 * PaddedBlocks(n)
  {
    hide LengthField;
    var q, r := n / 64, n % 64;
    assert (55 - n) % 64 == if r <= 55 then 55 - r else 119 - r by {
      var k := if r <= 55 then 55 - r else 119 - r;
      assert 55 - n == 64 * (if r <= 55 then -q else -q - 1) + k;
    }
  }

  function WordOctets(w: bv32): (o: seq<byte>)
    ensures |o| == 4
  {
    [(w >> 24) as int, ((w >> 16) & 0xff) as int, ((w >> 8) & 0xff) as int, (w & 0xff) as int]
  }

  function Digest(message: seq<byte>): seq<byte> {
    PaddingFills(|message|);
    var v := Blocks(message + Padding(|message|), PaddedBlocks(|message|));
    WordOctets(v.a) + WordOctets(v.b) + WordOctets(v.c) + WordOctets(v.d)
    + WordOctets(v.e) + WordOctets(v.f) + WordOctets(v.g) + WordOctets(v.h)
  }

  /** The 48 bits a MAVLink signature carries. */
  function Hash48(message: seq<byte>): (h: seq<byte>)
    ensures |h| == 6
  {
    Digest(message)[..6]
  }

  // ----- The streaming context -----

  lemma ScheduleAt(m: seq<bv32>, t: nat)
    requires |m| == 16
    ensures t < 16 ==> Schedule(m, t) == m[t]
    ensures t >= 16 ==>
              Schedule(m, t)
                == ScheduleWord(Schedule(m, t - 2), Schedule(m, t - 7), Schedule(m, t - 15), Schedule(m, t - 16))
  {
  }

  lemma NoRounds(v: Chain, m: seq<bv32>)
    requires |m| == 16
    ensures Rounds(v, m, 0) == v
  {
  }

  lemma RoundsStep(v: Chain, m: seq<bv32>, t: nat)
    requires |m| == 16 && t < 64
    ensures |K| == 64
    ensures var r := Rounds(v, m, t);
            var t1 := T1(r.e, r.f, r.g, r.h, K[t], Schedule(m, t));
            Rounds(v, m, t + 1) == Chain(Plus(t1, T2(r.a, r.b, r.c)), r.a, r.b, r.c, Plus(r.d, t1), r.e, r.f, r.g)
  {
    hide Plus, T1, T2, Schedule;
  }

  lemma CompressUnfolds(v: Chain, m: seq<bv32>)
    requires |m| == 16
    ensures var r := Rounds(v, m, 64);
            Compress(v, m) == Chain(Plus(v.a, r.a), Plus(v.b, r.b), Plus(v.c, r.c), Plus(v.d, r.d),
                                    Plus(v.e, r.e), Plus(v.f, r.f), Plus(v.g, r.g), Plus(v.h, r.h))
  {
    hide Plus, Rounds;
  }

  lemma {:induction false} BlocksOfPrefix(data: seq<byte>, more: seq<byte>, n: nat)
    requires 64 * n <= |data|
    ensures Blocks(data + more, n) == Blocks(data, n)
  {
    hide Compress, Words;
    if n > 0 {
      BlocksOfPrefix(data, more, n - 1);
      assert (data + more)[64 * n - 64..64 * n] == data[64 * n - 64..64 * n];
    }
  }

  /** Two 32-bit words hold the bit count of n octets, modulo 2^64. */
  ghost predicate Counts(n: nat, s0: uint32, s1: uint32) {
    0x1_0000_0000 * s1 + s0 == 8 * n % 0x1_0000_0000_0000_0000
  }

  lemma CountWraps(n: nat, len: nat, s0: uint32, s1: uint32)
    requires len < 0x1_0000_0000 && 0x1_0000_0000 * s1 + s0 == n % 0x1_0000_0000_0000_0000
    ensures var t0 := (s0 + len) % 0x1_0000_0000;
            var t1 := if t0 < s0 then (s1 + 1) % 0x1_0000_0000 else s1;
            0x1_0000_0000 * t1 + t0 == (n + len) % 0x1_0000_0000_0000_0000
  {
    var q := n / 0x1_0000_0000_0000_0000;
    assert n + len == 0x1_0000_0000_0000_0000 * q + 0x1_0000_0000 * s1 + s0 + len;
    if s0 + len < 0x1_0000_0000 {
    } else if s1 + 1 < 0x1_0000_0000 {
      assert n + len == 0x1_0000_0000_0000_0000 * q + (0x1_0000_0000 * (s1 + 1) + (s0 + len - 0x1_0000_0000));
    } else {
      assert n + len == 0x1_0000_0000_0000_0000 * (q + 1) + (s0 + len - 0x1_0000_0000);
    }
  }

  lemma OffsetOfCount(n: nat, s0: uint32, s1: uint32)
    requires Counts(n, s0, s1)
    ensures s0 / 8 % 64 == n % 64
  {
    var q := 8 * n / 0x1_0000_0000_0000_0000;
    assert 8 * n == 0x1_0000_0000_0000_0000 * q + 0x1_0000_0000 * s1 + s0;
    assert s0 % 8 == 0;
    assert n == 64 * (0x80_0000_0000_0000 * q + 0x80_0000 * s1) + s0 / 8;
  }

  lemma PaddingStart(n: nat)
    ensures (120 - n % 64 - 1) % 64 == (55 - n) % 64
  {
    var q, r := n / 64, n % 64;
    var k := if r <= 55 then 55 - r else 119 - r;
    assert 55 - n == 64 * (if r <= 55 then -q else -q - 1) + k;
    assert 119 - r == 64 * (if r <= 55 then 1 else 0) + k;
  }

  lemma LengthFieldOf(s0: uint32, s1: uint32)
    ensures LengthField(0x1_0000_0000 * s1 + s0) == WordField(s1) + WordField(s0)
  {
    hide WordField;
    var n := 0x1_0000_0000 * s1 + s0;
    assert n / 0x1_0000_0000 == s1 && n % 0x1_0000_0000 == s0;
  }

  lemma FirstSix(message: seq<byte>, v: Chain)
    requires 64 * PaddedBlocks(|message|) == |message| + |Padding(|message|)|
    requires v == Blocks(message + Padding(|message|), PaddedBlocks(|message|))
    ensures Hash48(message) == WordOctets(v.a) + WordOctets(v.b)[..2]
  {
    hide Blocks, Padding;
  }

  class Context {
    var sz0: uint32
    var sz1: uint32
    const counter: array<bv32>
    const saved: array<byte>
    ghost var fed: seq<byte>  // everything hashed so far
    ghost var blocks: nat     // how many full blocks of it are in the chain

    ghost function Value(): Chain
      reads counter
      requires counter.Length == 8
    {
      Chain(counter[0], counter[1], counter[2], counter[3], counter[4], counter[5], counter[6], counter[7])
    }

    lemma ValueUnfolds()
      requires counter.Length == 8
      ensures Value() == Chain(counter[0], counter[1], counter[2], counter[3], counter[4], counter[5], counter[6],
          counter[7])
    {
    }

    /** The chain has taken the first n blocks of `data`, and the buffer holds the rest. */
    ghost predicate Holds(data: seq<byte>, n: nat, offset: nat)
      reads counter, saved
      requires counter.Length == 8 && saved.Length == 64
    {
      && offset <= 64 && |data| == 64 * n + offset
      && Value() == Blocks(data, n)
      && saved[..offset] == data[64 * n..]
    }

    /** The state depends only on the octets fed, however they were split into updates. */
    ghost predicate Valid()
      reads this, counter, saved
    {
      && counter.Length == 8 && saved.Length == 64
      && Counts(|fed|, sz0, sz1)
      && 64 * blocks <= |fed| < 64 * blocks + 64 && Holds(fed, blocks, |fed| - 64 * blocks)
    }

    constructor ()
      ensures Valid() && fed == [] && fresh(counter) && fresh(saved)
    {
      sz0, sz1 := 0, 0;
      counter := new bv32[8][0x6a09e667, 0xbb67ae85, 0x3c6ef372, 0xa54ff53a,
                             0x510e527f, 0x9b05688c, 0x1f83d9ab, 0x5be0cd19];
      saved := new byte[64];
      fed, blocks := [], 0;
    }

    /** The first half of mavlink_sha256_calc: the schedule, expanded in place. */
    static method Expand(input: array<bv32>) returns (data: array<bv32>)
      requires input.Length == 16
      ensures fresh(data) && data.Length == 64
      ensures forall t :: 0 <= t < 64 ==> data[t] == Schedule(input[..], t)
    {
      hide *;
      ghost var m := input[..];
      data := new bv32[64];
      for i := 0 to 16
        invariant forall t :: 0 <= t < i ==> data[t] == Schedule(m, t)
      {
        ScheduleAt(m, i);
        data[i] := input[i];
      }
      for i := 16 to 64
        invariant forall t :: 0 <= t < i ==> data[t] == Schedule(m, t)
      {
        ScheduleAt(m, i);
        data[i] := ScheduleWord(data[i - 2], data[i - 7], data[i - 15], data[i - 16]);
      }
    }

    /** mavlink_sha256_calc: one block. */
    method Calc(input: array<bv32>)
      requires counter.Length == 8 && input.Length == 16 && input != counter
      modifies counter
      ensures Value() == Compress(old(Value()), old(input[..]))
    {
      hide *;
      ghost var m, v := input[..], Value();
      ValueUnfolds();
      var data := Expand(input);
      var aa, bb, cc, dd := counter[0], counter[1], counter[2], counter[3];
      var ee, ff, gg, hh := counter[4], counter[5], counter[6], counter[7];
      NoRounds(v, m);
      for i := 0 to 64
        invariant Chain(aa, bb, cc, dd, ee, ff, gg, hh) == Rounds(v, m, i)
        invariant Value() == v && forall t :: 0 <= t < 64 ==> data[t] == Schedule(m, t)
      {
        RoundsStep(v, m, i);
        var t1 := T1(ee, ff, gg, hh, K[i], data[i]);
        var t2 := T2(aa, bb, cc);
        hh, gg, ff, ee, dd, cc, bb, aa := gg, ff, ee, Plus(dd, t1), cc, bb, aa, Plus(t1, t2);
      }
      ValueUnfolds();
      counter[0], counter[1], counter[2], counter[3] :=
        Plus(counter[0], aa), Plus(counter[1], bb), Plus(counter[2], cc), Plus(counter[3], dd);
      counter[4], counter[5], counter[6], counter[7] :=
        Plus(counter[4], ee), Plus(counter[5], ff), Plus(counter[6], gg), Plus(counter[7], hh);
      ValueUnfolds();
      CompressUnfolds(v, m);
    }

    /** The byte-swapping load of a full buffer. */
    method Load() returns (current: array<bv32>)
      requires saved.Length == 64
      ensures fresh(current) && current[..] == Words(saved[..])
    {
      hide BigEndianWord;
      current := new bv32[16];
      for i := 0 to 16
        invariant forall k :: 0 <= k < i ==> current[k] == Words(saved[..])[k]
      {
        current[i] := BigEndianWord(saved[4 * i], saved[4 * i + 1], saved[4 * i + 2], saved[4 * i + 3]);
      }
    }

    method Flush(ghost data: seq<byte>, ghost n: nat)
      requires counter.Length == 8 && saved.Length == 64 && Holds(data, n, 64)
      modifies counter
      ensures Holds(data, n + 1, 0)
    {
      hide Compress, Words, Value;
      var current := Load();
      assert saved[..] == saved[..64] == data[64 * n..64 * (n + 1)];
      Calc(current);
    }

    /** memcpy of the next piece into the buffer. */
    method Fill(ghost data: seq<byte>, ghost n: nat, offset: nat, piece: seq<byte>)
      requires counter.Length == 8 && saved.Length == 64
      requires Holds(data, n, offset) && offset + |piece| <= 64
      modifies saved
      ensures Holds(data + piece, n, offset + |piece|)
    {
      hide Blocks, Value;
      forall j | 0 <= j < |piece| {
        saved[offset + j] := piece[j];
      }
      BlocksOfPrefix(data, piece, n);
      assert (data + piece)[64 * n..] == data[64 * n..] + piece;
      assert saved[..offset + |piece|] == saved[..offset] + piece;
    }

    /** The 64-bit bit count in two words with a carry; returns how full the buffer was. */
    method Count(len: nat) returns (offset: nat)
      requires len < 0x2000_0000
      requires Counts(|fed|, sz0, sz1)
      modifies this`sz0, this`sz1
      ensures Counts(|fed| + len, sz0, sz1)
      ensures offset == |fed| % 64
    {
      var oldSz := sz0;
      sz0 := (sz0 + len * 8) % 0x1_0000_0000;
      if sz0 < oldSz {
        sz1 := (sz1 + 1) % 0x1_0000_0000;
      }
      offset := oldSz / 8 % 64;
      CountWraps(8 * |fed|, 8 * len, oldSz, old(sz1));
      OffsetOfCount(|fed|, oldSz, old(sz1));
    }

    /** The copying loop of mavlink_sha256_update. */
    method Absorb(ghost data: seq<byte>, ghost blocks: nat, start: nat, v: seq<byte>)
        returns (ghost n: nat, ghost offset: nat)
      requires counter.Length == 8 && saved.Length == 64 && start < 64 && Holds(data, blocks, start)
      modifies counter, saved
      ensures offset < 64 && Holds(data + v, n, offset)
    {
      hide Blocks, Value;
      n := blocks;
      var p, filled := 0, start;
      assert data + v[..0] == data;
      while p < |v|
        invariant 0 <= p <= |v| && 0 <= filled < 64
        invariant Holds(data + v[..p], n, filled)
      {
        var l := if |v| - p < 64 - filled then |v| - p else 64 - filled;
        assert data + v[..p] + v[p..p + l] == data + v[..p + l];
        Fill(data + v[..p], n, filled, v[p..p + l]);
        filled, p := filled + l, p + l;
        if filled == 64 {
          Flush(data + v[..p], n);
          filled, n := 0, n + 1;
        }
      }
      assert v[..p] == v;
      offset := filled;
    }

    method Update(v: seq<byte>)
      requires Valid() && |v| < 0x2000_0000
      modifies this`sz0, this`sz1, this`fed, this`blocks, counter, saved
      ensures Valid() && fed == old(fed) + v
    {
      hide Blocks, Value, Counts;
      var offset := Count(|v|);
      ghost var n, rest := Absorb(fed, blocks, offset, v);
      fed, blocks := fed + v, n;
    }

    /** Both words of the bit count, stored octet by octet. */
    static method StoreCount(zeros: array<byte>, at: nat, s0: uint32, s1: uint32)
      requires at + 8 <= zeros.Length
      modifies zeros
      ensures zeros[..at] == old(zeros[..at])
      ensures zeros[at..at + 8] == WordField(s1) + WordField(s0)
    {
      zeros[at + 7] := s0 % 0x100;
      zeros[at + 6] := s0 / 0x100 % 0x100;
      zeros[at + 5] := s0 / 0x1_0000 % 0x100;
      zeros[at + 4] := s0 / 0x100_0000 % 0x100;
      zeros[at + 3] := s1 % 0x100;
      zeros[at + 2] := s1 / 0x100 % 0x100;
      zeros[at + 1] := s1 / 0x1_0000 % 0x100;
      zeros[at] := s1 / 0x100_0000 % 0x100;
    }

    /** The padding the source lays out in a 72-octet scratch buffer. */
    method PaddingBuffer() returns (zeros: array<byte>, length: nat)
      requires Valid() && 8 * |fed| < 0x1_0000_0000_0000_0000
      ensures fresh(zeros) && length <= zeros.Length && zeros[..length] == Padding(|fed|)
    {
      hide Blocks, Value, Holds, LengthField, WordField;
      zeros := new byte[72](_ => 0);
      var offset := sz0 / 8 % 64;
      var dstart := (120 - offset - 1) % 64 + 1;
      OffsetOfCount(|fed|, sz0, sz1);
      PaddingStart(|fed|);
      LengthFieldOf(sz0, sz1);
      assert 0x1_0000_0000 * sz1 + sz0 == 8 * |fed|;
      zeros[0] := 0x80;
      assert zeros[..dstart] == [0x80] + seq(dstart - 1, _ => 0);
      StoreCount(zeros, dstart, sz0, sz1);
      length := dstart + 8;
      assert zeros[..length] == zeros[..dstart] + zeros[dstart..length];
    }

    /** mavlink_sha256_final_48: the first six octets of the digest of everything fed. */
    method Final48() returns (result: seq<byte>)
      requires Valid() && 8 * |fed| < 0x1_0000_0000_0000_0000
      modifies this`sz0, this`sz1, this`fed, this`blocks, counter, saved
      ensures result == Hash48(old(fed))
    {
      hide Blocks, Value, Padding, Hash48, WordOctets, Counts;
      ghost var message := fed;
      var zeros, length := PaddingBuffer();
      PaddingFills(|message|);
      Update(zeros[..length]);
      FirstSix(message, Value());
      ValueUnfolds();
      result := WordOctets(counter[0]) + WordOctets(counter[1])[..2];
    }
  }

  // ----- Any splitting into updates gives the same hash -----

  function Concat(pieces: seq<seq<byte>>): seq<byte> {
    if pieces == [] then [] else Concat(pieces[..|pieces| - 1]) + pieces[|pieces| - 1]
  }

  method HashPieces(pieces: seq<seq<byte>>) returns (result: seq<byte>)
    requires forall i :: 0 <= i < |pieces| ==> |pieces[i]| < 0x2000_0000
    requires 8 * |Concat(pieces)| < 0x1_0000_0000_0000_0000
    ensures result == Hash48(Concat(pieces))
  {
    hide Hash48;
    var ctx := new Context();
    for i := 0 to |pieces|
      invariant fresh(ctx) && fresh(ctx.counter) && fresh(ctx.saved)
      invariant ctx.Valid() && ctx.fed == Concat(pieces[..i])
    {
      ctx.Update(pieces[i]);
      assert pieces[..i + 1][..i] == pieces[..i];
    }
    assert pieces[..|pieces|] == pieces;
    result := ctx.Final48();
  }

  lemma ConcatFive(a: seq<byte>, b: seq<byte>, c: seq<byte>, d: seq<byte>, e: seq<byte>)
    ensures Concat([a, b, c, d, e]) == a + b + c + d + e
  {
    assert [a, b, c, d, e][..4] == [a, b, c, d] && [a, b, c, d][..3] == [a, b, c];
    assert [a, b, c][..2] == [a, b] && [a, b][..1] == [a];
    assert Concat([a]) == [] + a == a;
    assert Concat([a, b, c]) == Concat([a, b]) + c;
  }
}
