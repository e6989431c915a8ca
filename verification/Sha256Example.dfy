/** The worked example of appendix B.1 of FIPS 180-2: the hash of the three characters "abc", word by word. */
module Sha256Example {
  import opened Bytes
  import opened Sha256

  /** The padded block. */
  const BLOCK: seq<bv32> := [0x61626380, 0, 0, 0, 0, 0, 0, 0] + [0, 0, 0, 0, 0, 0, 0, 0x18]

  // ----- Sections 3.2 and 4.1.2, with every rotation written out -----

  function R2(x: bv32): (r: bv32) ensures r == Rotr(x, 2) { (x >> 2) | (x << 30) }
  function R6(x: bv32): (r: bv32) ensures r == Rotr(x, 6) { (x >> 6) | (x << 26) }
  function R7(x: bv32): (r: bv32) ensures r == Rotr(x, 7) { (x >> 7) | (x << 25) }
  function R11(x: bv32): (r: bv32) ensures r == Rotr(x, 11) { (x >> 11) | (x << 21) }
  function R13(x: bv32): (r: bv32) ensures r == Rotr(x, 13) { (x >> 13) | (x << 19) }
  function R17(x: bv32): (r: bv32) ensures r == Rotr(x, 17) { (x >> 17) | (x << 15) }
  function R18(x: bv32): (r: bv32) ensures r == Rotr(x, 18) { (x >> 18) | (x << 14) }
  function R19(x: bv32): (r: bv32) ensures r == Rotr(x, 19) { (x >> 19) | (x << 13) }
  function R22(x: bv32): (r: bv32) ensures r == Rotr(x, 22) { (x >> 22) | (x << 10) }
  function R25(x: bv32): (r: bv32) ensures r == Rotr(x, 25) { (x >> 25) | (x << 7) }

  lemma BigSigmasAre(x: bv32)
    ensures BigSigma0(x) == R2(x) ^ R13(x) ^ R22(x) && BigSigma1(x) == R6(x) ^ R11(x) ^ R25(x)
  {
    hide *;
    BigSigmas(x, R2(x), R13(x), R22(x), R6(x), R11(x), R25(x));
  }

  lemma SmallSigmasAre(x: bv32)
    ensures SmallSigma0(x) == R7(x) ^ R18(x) ^ (x >> 3) && SmallSigma1(x) == R17(x) ^ R19(x) ^ (x >> 10)
  {
    hide *;
    SmallSigmas(x, R7(x), R18(x), R17(x), R19(x));
  }

  lemma BigSigmas(x: bv32, a: bv32, b: bv32, c: bv32, d: bv32, e: bv32, f: bv32)
    requires a == Rotr(x, 2) && b == Rotr(x, 13) && c == Rotr(x, 22)
    requires d == Rotr(x, 6) && e == Rotr(x, 11) && f == Rotr(x, 25)
    ensures BigSigma0(x) == a ^ b ^ c && BigSigma1(x) == d ^ e ^ f
  {
    hide Rotr;
  }

  lemma SmallSigmas(x: bv32, a: bv32, b: bv32, c: bv32, d: bv32)
    requires a == Rotr(x, 7) && b == Rotr(x, 18) && c == Rotr(x, 17) && d == Rotr(x, 19)
    ensures SmallSigma0(x) == a ^ b ^ (x >> 3) && SmallSigma1(x) == c ^ d ^ (x >> 10)
  {
    hide Rotr;
  }

  lemma Choices(x: bv32, y: bv32, z: bv32)
    ensures Ch(x, y, z) == (x & y) | (!x & z) && Maj(x, y, z) == (x & y) | (z & (x | y))
  {
  }

  lemma BlockSize()
    ensures |BLOCK| == 16 && |K| == 64
  {
  }

  /** One word of the schedule, from the four it depends on. */
  lemma Word(t: nat, w2: bv32, w7: bv32, w15: bv32, w16: bv32, w: bv32)
    requires t >= 16 && Schedule(BLOCK, t - 2) == w2 && Schedule(BLOCK, t - 7) == w7
    requires Schedule(BLOCK, t - 15) == w15 && Schedule(BLOCK, t - 16) == w16
    requires w == Plus(Plus(Plus(R17(w2) ^ R19(w2) ^ (w2 >> 10), w7), R7(w15) ^ R18(w15) ^ (w15 >> 3)), w16)
    ensures Schedule(BLOCK, t) == w
  {
    BlockSize();
    hide *;
    ScheduleAt(BLOCK, t);
    SmallSigmasAre(w2);
    SmallSigmasAre(w15);
    WordIs(w2, w7, w15, w16);
  }

  lemma WordIs(w2: bv32, w7: bv32, w15: bv32, w16: bv32)
    ensures ScheduleWord(w2, w7, w15, w16) == Plus(Plus(Plus(SmallSigma1(w2), w7), SmallSigma0(w15)), w16)
  {
    hide Plus, SmallSigma0, SmallSigma1;
  }

  /** The two sums of a round. */
  function Sum1(e: bv32, f: bv32, g: bv32, h: bv32, k: bv32, w: bv32): bv32 {
    Plus(Plus(Plus(Plus(h, R6(e) ^ R11(e) ^ R25(e)), (e & f) | (!e & g)), k), w)
  }

  function Sum2(a: bv32, b: bv32, c: bv32): bv32 {
    Plus(R2(a) ^ R13(a) ^ R22(a), (a & b) | (c & (a | b)))
  }

  /** One round: the two words it computes, from the state, the constant and the schedule. */
  lemma Turn(t: nat, r: Chain, k: bv32, w: bv32, t1: bv32, t2: bv32)
    requires t < 64 && Rounds(INITIAL, BLOCK, t) == r && K[t] == k && Schedule(BLOCK, t) == w
    requires t1 == Sum1(r.e, r.f, r.g, r.h, k, w) && t2 == Sum2(r.a, r.b, r.c)
    ensures Rounds(INITIAL, BLOCK, t + 1) == Chain(Plus(t1, t2), r.a, r.b, r.c, Plus(r.d, t1), r.e, r.f, r.g)
  {
    BlockSize();
    hide *;
    RoundsStep(INITIAL, BLOCK, t);
    FirstSum(r.e, r.f, r.g, r.h, k, w);
    SecondSum(r.a, r.b, r.c);
  }

  lemma FirstSum(e: bv32, f: bv32, g: bv32, h: bv32, k: bv32, w: bv32)
    ensures T1(e, f, g, h, k, w) == Sum1(e, f, g, h, k, w)
  {
    hide Plus, R6, R11, R25, T1;
    BigSigmasAre(e);
    Choices(e, f, g);
    FirstSumOf(e, f, g, h, k, w, R6(e) ^ R11(e) ^ R25(e), (e & f) | (!e & g));
  }

  lemma FirstSumOf(e: bv32, f: bv32, g: bv32, h: bv32, k: bv32, w: bv32, s: bv32, c: bv32)
    requires BigSigma1(e) == s && Ch(e, f, g) == c
    ensures T1(e, f, g, h, k, w) == Plus(Plus(Plus(Plus(h, s), c), k), w)
  {
    hide Plus, BigSigma1, Ch;
  }

  lemma SecondSum(a: bv32, b: bv32, c: bv32)
    ensures T2(a, b, c) == Sum2(a, b, c)
  {
    hide Plus, R2, R13, R22, T2;
    BigSigmasAre(a);
    Choices(a, b, c);
    SecondSumOf(a, b, c, R2(a) ^ R13(a) ^ R22(a), (a & b) | (c & (a | b)));
  }

  lemma SecondSumOf(a: bv32, b: bv32, c: bv32, s: bv32, m: bv32)
    requires BigSigma0(a) == s && Maj(a, b, c) == m
    ensures T2(a, b, c) == Plus(s, m)
  {
    hide Plus, BigSigma0, Maj;
  }

  lemma Words16()
    ensures Schedule(BLOCK, 0) == 0x61626380 && Schedule(BLOCK, 1) == 0x00000000
    ensures Schedule(BLOCK, 2) == 0x00000000 && Schedule(BLOCK, 3) == 0x00000000
    ensures Schedule(BLOCK, 4) == 0x00000000 && Schedule(BLOCK, 5) == 0x00000000
    ensures Schedule(BLOCK, 6) == 0x00000000 && Schedule(BLOCK, 7) == 0x00000000
    ensures Schedule(BLOCK, 8) == 0x00000000 && Schedule(BLOCK, 9) == 0x00000000
    ensures Schedule(BLOCK, 10) == 0x00000000 && Schedule(BLOCK, 11) == 0x00000000
    ensures Schedule(BLOCK, 12) == 0x00000000 && Schedule(BLOCK, 13) == 0x00000000
    ensures Schedule(BLOCK, 14) == 0x00000000 && Schedule(BLOCK, 15) == 0x00000018
    ensures Schedule(BLOCK, 16) == 0x61626380 && Schedule(BLOCK, 17) == 0x000f0000
    ensures Schedule(BLOCK, 18) == 0x7da86405 && Schedule(BLOCK, 19) == 0x600003c6
    ensures Schedule(BLOCK, 20) == 0x3e9d7b78 && Schedule(BLOCK, 21) == 0x0183fc00
    ensures Schedule(BLOCK, 22) == 0x12dcbfdb && Schedule(BLOCK, 23) == 0xe2e2c38e
    ensures Schedule(BLOCK, 24) == 0xc8215c1a && Schedule(BLOCK, 25) == 0xb73679a2
    ensures Schedule(BLOCK, 26) == 0xe5bc3909 && Schedule(BLOCK, 27) == 0x32663c5b
    ensures Schedule(BLOCK, 28) == 0x9d209d67 && Schedule(BLOCK, 29) == 0xec8726cb
    ensures Schedule(BLOCK, 30) == 0x702138a4 && Schedule(BLOCK, 31) == 0xd3b7973b
  {
    Given();
    hide Schedule;
    Word(16, 0x00000000, 0x00000000, 0x00000000, 0x61626380, 0x61626380);
    Word(17, 0x00000018, 0x00000000, 0x00000000, 0x00000000, 0x000f0000);
    Word(18, 0x61626380, 0x00000000, 0x00000000, 0x00000000, 0x7da86405);
    Word(19, 0x000f0000, 0x00000000, 0x00000000, 0x00000000, 0x600003c6);
    Word(20, 0x7da86405, 0x00000000, 0x00000000, 0x00000000, 0x3e9d7b78);
    Word(21, 0x600003c6, 0x00000000, 0x00000000, 0x00000000, 0x0183fc00);
    Word(22, 0x3e9d7b78, 0x00000018, 0x00000000, 0x00000000, 0x12dcbfdb);
    Word(23, 0x0183fc00, 0x61626380, 0x00000000, 0x00000000, 0xe2e2c38e);
    Word(24, 0x12dcbfdb, 0x000f0000, 0x00000000, 0x00000000, 0xc8215c1a);
    Word(25, 0xe2e2c38e, 0x7da86405, 0x00000000, 0x00000000, 0xb73679a2);
    Word(26, 0xc8215c1a, 0x600003c6, 0x00000000, 0x00000000, 0xe5bc3909);
    Word(27, 0xb73679a2, 0x3e9d7b78, 0x00000000, 0x00000000, 0x32663c5b);
    Word(28, 0xe5bc3909, 0x0183fc00, 0x00000000, 0x00000000, 0x9d209d67);
    Word(29, 0x32663c5b, 0x12dcbfdb, 0x00000000, 0x00000000, 0xec8726cb);
    Word(30, 0x9d209d67, 0xe2e2c38e, 0x00000018, 0x00000000, 0x702138a4);
    Word(31, 0xec8726cb, 0xc8215c1a, 0x61626380, 0x00000018, 0xd3b7973b);
  }

  lemma Given()
    ensures |BLOCK| == 16 && Schedule(BLOCK, 0) == 0x61626380 && Schedule(BLOCK, 15) == 0x18
    ensures forall t :: 0 < t < 15 ==> Schedule(BLOCK, t) == 0
  {
    forall t | 0 <= t < 16 ensures Schedule(BLOCK, t) == BLOCK[t] {
      ScheduleAt(BLOCK, t);
    }
    hide Schedule;
  }

  lemma Words32()
    ensures Schedule(BLOCK, 32) == 0x93f5997f && Schedule(BLOCK, 33) == 0x3b68ba73
    ensures Schedule(BLOCK, 34) == 0xaff4ffc1 && Schedule(BLOCK, 35) == 0xf10a5c62
    ensures Schedule(BLOCK, 36) == 0x0a8b3996 && Schedule(BLOCK, 37) == 0x72af830a
    ensures Schedule(BLOCK, 38) == 0x9409e33e && Schedule(BLOCK, 39) == 0x24641522
    ensures Schedule(BLOCK, 40) == 0x9f47bf94 && Schedule(BLOCK, 41) == 0xf0a64f5a
    ensures Schedule(BLOCK, 42) == 0x3e246a79 && Schedule(BLOCK, 43) == 0x27333ba3
    ensures Schedule(BLOCK, 44) == 0x0c4763f2 && Schedule(BLOCK, 45) == 0x840abf27
    ensures Schedule(BLOCK, 46) == 0x7a290d5d && Schedule(BLOCK, 47) == 0x065c43da
  {
    hide Schedule;
    Words16();
    Word(32, 0x702138a4, 0xb73679a2, 0x000f0000, 0x61626380, 0x93f5997f);
    Word(33, 0xd3b7973b, 0xe5bc3909, 0x7da86405, 0x000f0000, 0x3b68ba73);
    Word(34, 0x93f5997f, 0x32663c5b, 0x600003c6, 0x7da86405, 0xaff4ffc1);
    Word(35, 0x3b68ba73, 0x9d209d67, 0x3e9d7b78, 0x600003c6, 0xf10a5c62);
    Word(36, 0xaff4ffc1, 0xec8726cb, 0x0183fc00, 0x3e9d7b78, 0x0a8b3996);
    Word(37, 0xf10a5c62, 0x702138a4, 0x12dcbfdb, 0x0183fc00, 0x72af830a);
    Word(38, 0x0a8b3996, 0xd3b7973b, 0xe2e2c38e, 0x12dcbfdb, 0x9409e33e);
    Word(39, 0x72af830a, 0x93f5997f, 0xc8215c1a, 0xe2e2c38e, 0x24641522);
    Word(40, 0x9409e33e, 0x3b68ba73, 0xb73679a2, 0xc8215c1a, 0x9f47bf94);
    Word(41, 0x24641522, 0xaff4ffc1, 0xe5bc3909, 0xb73679a2, 0xf0a64f5a);
    Word(42, 0x9f47bf94, 0xf10a5c62, 0x32663c5b, 0xe5bc3909, 0x3e246a79);
    Word(43, 0xf0a64f5a, 0x0a8b3996, 0x9d209d67, 0x32663c5b, 0x27333ba3);
    Word(44, 0x3e246a79, 0x72af830a, 0xec8726cb, 0x9d209d67, 0x0c4763f2);
    Word(45, 0x27333ba3, 0x9409e33e, 0x702138a4, 0xec8726cb, 0x840abf27);
    Word(46, 0x0c4763f2, 0x24641522, 0xd3b7973b, 0x702138a4, 0x7a290d5d);
    Word(47, 0x840abf27, 0x9f47bf94, 0x93f5997f, 0xd3b7973b, 0x065c43da);
  }

  lemma Words48()
    ensures Schedule(BLOCK, 48) == 0xfb3e89cb && Schedule(BLOCK, 49) == 0xcc7617db
    ensures Schedule(BLOCK, 50) == 0xb9e66c34 && Schedule(BLOCK, 51) == 0xa9993667
    ensures Schedule(BLOCK, 52) == 0x84badedd && Schedule(BLOCK, 53) == 0xc21462bc
    ensures Schedule(BLOCK, 54) == 0x1487472c && Schedule(BLOCK, 55) == 0xb20f7a99
    ensures Schedule(BLOCK, 56) == 0xef57b9cd && Schedule(BLOCK, 57) == 0xebe6b238
    ensures Schedule(BLOCK, 58) == 0x9fe3095e && Schedule(BLOCK, 59) == 0x78bc8d4b
    ensures Schedule(BLOCK, 60) == 0xa43fcf15 && Schedule(BLOCK, 61) == 0x668b2ff8
    ensures Schedule(BLOCK, 62) == 0xeeaba2cc && Schedule(BLOCK, 63) == 0x12b1edeb
  {
    hide Schedule;
    Words32();
    Word(48, 0x7a290d5d, 0xf0a64f5a, 0x3b68ba73, 0x93f5997f, 0xfb3e89cb);
    Word(49, 0x065c43da, 0x3e246a79, 0xaff4ffc1, 0x3b68ba73, 0xcc7617db);
    Word(50, 0xfb3e89cb, 0x27333ba3, 0xf10a5c62, 0xaff4ffc1, 0xb9e66c34);
    Word(51, 0xcc7617db, 0x0c4763f2, 0x0a8b3996, 0xf10a5c62, 0xa9993667);
    Word(52, 0xb9e66c34, 0x840abf27, 0x72af830a, 0x0a8b3996, 0x84badedd);
    Word(53, 0xa9993667, 0x7a290d5d, 0x9409e33e, 0x72af830a, 0xc21462bc);
    Word(54, 0x84badedd, 0x065c43da, 0x24641522, 0x9409e33e, 0x1487472c);
    Word(55, 0xc21462bc, 0xfb3e89cb, 0x9f47bf94, 0x24641522, 0xb20f7a99);
    Word(56, 0x1487472c, 0xcc7617db, 0xf0a64f5a, 0x9f47bf94, 0xef57b9cd);
    Word(57, 0xb20f7a99, 0xb9e66c34, 0x3e246a79, 0xf0a64f5a, 0xebe6b238);
    Word(58, 0xef57b9cd, 0xa9993667, 0x27333ba3, 0x3e246a79, 0x9fe3095e);
    Word(59, 0xebe6b238, 0x84badedd, 0x0c4763f2, 0x27333ba3, 0x78bc8d4b);
    Word(60, 0x9fe3095e, 0xc21462bc, 0x840abf27, 0x0c4763f2, 0xa43fcf15);
    Word(61, 0x78bc8d4b, 0x1487472c, 0x7a290d5d, 0x840abf27, 0x668b2ff8);
    Word(62, 0xa43fcf15, 0xb20f7a99, 0x065c43da, 0x7a290d5d, 0xeeaba2cc);
    Word(63, 0x668b2ff8, 0xef57b9cd, 0xfb3e89cb, 0x065c43da, 0x12b1edeb);
  }

  lemma Constants8()
    ensures |K| == 64
    ensures K[0] == 0x428a2f98 && K[1] == 0x71374491 && K[2] == 0xb5c0fbcf && K[3] == 0xe9b5dba5
    ensures K[4] == 0x3956c25b && K[5] == 0x59f111f1 && K[6] == 0x923f82a4 && K[7] == 0xab1c5ed5
  {
  }

  lemma Rounds8()
    ensures Rounds(INITIAL, BLOCK, 8)
         == Chain(0x85a07b5f, 0xe5030380, 0x2b4209f5, 0x04409a6a, 0x0c657a79, 0x9b27a401, 0x714260ad, 0x43ada245)
  {
    hide Rounds, Schedule, K;
    Constants8();
    NoRounds(INITIAL, BLOCK);
    Words16();
    Turn(0, Chain(0x6a09e667, 0xbb67ae85, 0x3c6ef372, 0xa54ff53a, 0x510e527f, 0x9b05688c, 0x1f83d9ab, 0x5be0cd19),
         0x428a2f98, 0x61626380, 0x54da50e8, 0x08909ae5);
    Turn(1, Chain(0x5d6aebcd, 0x6a09e667, 0xbb67ae85, 0x3c6ef372, 0xfa2a4622, 0x510e527f, 0x9b05688c, 0x1f83d9ab),
         0x71374491, 0x00000000, 0x3c5f8617, 0x1e0b5396);
    Turn(2, Chain(0x5a6ad9ad, 0x5d6aebcd, 0x6a09e667, 0xbb67ae85, 0x78ce7989, 0xfa2a4622, 0x510e527f, 0x9b05688c),
         0xb5c0fbcf, 0x00000000, 0x3dc18b66, 0x8b01bc41);
    Turn(3, Chain(0xc8c347a7, 0x5a6ad9ad, 0x5d6aebcd, 0x6a09e667, 0xf92939eb, 0x78ce7989, 0xfa2a4622, 0x510e527f),
         0xe9b5dba5, 0x00000000, 0xbad621e9, 0x1a7ad47d);
    Turn(4, Chain(0xd550f666, 0xc8c347a7, 0x5a6ad9ad, 0x5d6aebcd, 0x24e00850, 0xf92939eb, 0x78ce7989, 0xfa2a4622),
         0x3956c25b, 0x00000000, 0xe642b678, 0x1dfde3f2);
    Turn(5, Chain(0x04409a6a, 0xd550f666, 0xc8c347a7, 0x5a6ad9ad, 0x43ada245, 0x24e00850, 0xf92939eb, 0x78ce7989),
         0x59f111f1, 0x00000000, 0x16d78700, 0x146a82f5);
    Turn(6, Chain(0x2b4209f5, 0x04409a6a, 0xd550f666, 0xc8c347a7, 0x714260ad, 0x43ada245, 0x24e00850, 0xf92939eb),
         0x923f82a4, 0x00000000, 0xd2645c5a, 0x129ea726);
    Turn(7, Chain(0xe5030380, 0x2b4209f5, 0x04409a6a, 0xd550f666, 0x9b27a401, 0x714260ad, 0x43ada245, 0x24e00850),
         0xab1c5ed5, 0x00000000, 0x37148413, 0x4e8bf74c);
  }

  lemma Constants16()
    ensures |K| == 64
    ensures K[8] == 0xd807aa98 && K[9] == 0x12835b01 && K[10] == 0x243185be && K[11] == 0x550c7dc3
    ensures K[12] == 0x72be5d74 && K[13] == 0x80deb1fe && K[14] == 0x9bdc06a7 && K[15] == 0xc19bf174
  {
  }

  lemma Rounds16()
    ensures Rounds(INITIAL, BLOCK, 16)
         == Chain(0xb0fa238e, 0xc0645fde, 0xd932eb16, 0x87912990, 0x07590dcd, 0x0b92f20c, 0x745a48de, 0x1e578218)
  {
    hide Rounds, Schedule, K;
    Constants16();
    Rounds8();
    Words16();
    Turn(8, Chain(0x85a07b5f, 0xe5030380, 0x2b4209f5, 0x04409a6a, 0x0c657a79, 0x9b27a401, 0x714260ad, 0x43ada245),
         0xd807aa98, 0x00000000, 0x2e899322, 0x5f7b5997);
    Turn(9, Chain(0x8e04ecb9, 0x85a07b5f, 0xe5030380, 0x2b4209f5, 0x32ca2d8c, 0x0c657a79, 0x9b27a401, 0x714260ad),
         0x12835b01, 0x00000000, 0xf1871ba1, 0x9b0018ca);
    Turn(10, Chain(0x8c87346b, 0x8e04ecb9, 0x85a07b5f, 0xe5030380, 0x1cc92596, 0x32ca2d8c, 0x0c657a79, 0x9b27a401),
         0x243185be, 0x00000000, 0x5e682068, 0xe930838c);
    Turn(11, Chain(0x4798a3f4, 0x8c87346b, 0x8e04ecb9, 0x85a07b5f, 0x436b23e8, 0x1cc92596, 0x32ca2d8c, 0x0c657a79),
         0x550c7dc3, 0x00000000, 0xfbcf5b8a, 0xfb506a1f);
    Turn(12, Chain(0xf71fc5a9, 0x4798a3f4, 0x8c87346b, 0x8e04ecb9, 0x816fd6e9, 0x436b23e8, 0x1cc92596, 0x32ca2d8c),
         0x72be5d74, 0x00000000, 0x9052955f, 0xf73e9431);
    Turn(13, Chain(0x87912990, 0xf71fc5a9, 0x4798a3f4, 0x8c87346b, 0x1e578218, 0x816fd6e9, 0x436b23e8, 0x1cc92596),
         0x80deb1fe, 0x00000000, 0xe7d31473, 0xf15fd6a3);
    Turn(14, Chain(0xd932eb16, 0x87912990, 0xf71fc5a9, 0x4798a3f4, 0x745a48de, 0x1e578218, 0x816fd6e9, 0x436b23e8),
         0x9bdc06a7, 0x00000000, 0xc3fa4e18, 0xfc6a11c6);
    Turn(15, Chain(0xc0645fde, 0xd932eb16, 0x87912990, 0xf71fc5a9, 0x0b92f20c, 0x745a48de, 0x1e578218, 0x816fd6e9),
         0xc19bf174, 0x00000018, 0x10394824, 0xa0c0db6a);
  }

  lemma Constants24()
    ensures |K| == 64
    ensures K[16] == 0xe49b69c1 && K[17] == 0xefbe4786 && K[18] == 0x0fc19dc6 && K[19] == 0x240ca1cc
    ensures K[20] == 0x2de92c6f && K[21] == 0x4a7484aa && K[22] == 0x5cb0a9dc && K[23] == 0x76f988da
  {
  }

  lemma Rounds24()
    ensures Rounds(INITIAL, BLOCK, 24)
         == Chain(0xc5d53d8d, 0xa7a3623f, 0xc2606d6d, 0x9dc68b63, 0xaa47c347, 0x49f5114a, 0xe1257970, 0x8ada8930)
  {
    hide Rounds, Schedule, K;
    Constants24();
    Rounds16();
    Words16();
    Turn(16, Chain(0xb0fa238e, 0xc0645fde, 0xd932eb16, 0x87912990, 0x07590dcd, 0x0b92f20c, 0x745a48de, 0x1e578218),
         0xe49b69c1, 0x61626380, 0xf8a2f90c, 0x2937a18f);
    Turn(17, Chain(0x21da9a9b, 0xb0fa238e, 0xc0645fde, 0xd932eb16, 0x8034229c, 0x07590dcd, 0x0b92f20c, 0x745a48de),
         0xefbe4786, 0x000f0000, 0xab3bf93e, 0x17bfe093);
    Turn(18, Chain(0xc2fbd9d1, 0x21da9a9b, 0xb0fa238e, 0xc0645fde, 0x846ee454, 0x8034229c, 0x07590dcd, 0x0b92f20c),
         0x0fc19dc6, 0x7da86405, 0x0c253983, 0xf252423c);
    Turn(19, Chain(0xfe777bbf, 0xc2fbd9d1, 0x21da9a9b, 0xb0fa238e, 0xcc899961, 0x846ee454, 0x8034229c, 0x07590dcd),
         0x240ca1cc, 0x600003c6, 0xff695deb, 0xe288ae48);
    Turn(20, Chain(0xe1f20c33, 0xfe777bbf, 0xc2fbd9d1, 0x21da9a9b, 0xb0638179, 0xcc899961, 0x846ee454, 0x8034229c),
         0x2de92c6f, 0x3e9d7b78, 0x68ffee95, 0x34c69cce);
    Turn(21, Chain(0x9dc68b63, 0xe1f20c33, 0xfe777bbf, 0xc2fbd9d1, 0x8ada8930, 0xb0638179, 0xcc899961, 0x846ee454),
         0x4a7484aa, 0x0183fc00, 0x1e299f9f, 0xa436cdce);
    Turn(22, Chain(0xc2606d6d, 0x9dc68b63, 0xe1f20c33, 0xfe777bbf, 0xe1257970, 0x8ada8930, 0xb0638179, 0xcc899961),
         0x5cb0a9dc, 0x12dcbfdb, 0x4b7d958b, 0x5c25ccb4);
    Turn(23, Chain(0xa7a3623f, 0xc2606d6d, 0x9dc68b63, 0xe1f20c33, 0x49f5114a, 0xe1257970, 0x8ada8930, 0xb0638179),
         0x76f988da, 0xe2e2c38e, 0xc855b714, 0xfd7f8679);
  }

  lemma Constants32()
    ensures |K| == 64
    ensures K[24] == 0x983e5152 && K[25] == 0xa831c66d && K[26] == 0xb00327c8 && K[27] == 0xbf597fc7
    ensures K[28] == 0xc6e00bf3 && K[29] == 0xd5a79147 && K[30] == 0x06ca6351 && K[31] == 0x14292967
  {
  }

  lemma Rounds32()
    ensures Rounds(INITIAL, BLOCK, 32)
         == Chain(0x73b33bf5, 0xea992a22, 0xa0060b30, 0x363482c9, 0xba591112, 0x0109ab3a, 0xade79437, 0x6112a3b7)
  {
    hide Rounds, Schedule, K;
    Constants32();
    Rounds24();
    Words16();
    Turn(24, Chain(0xc5d53d8d, 0xa7a3623f, 0xc2606d6d, 0x9dc68b63, 0xaa47c347, 0x49f5114a, 0xe1257970, 0x8ada8930),
         0x983e5152, 0xc8215c1a, 0x8a5d642e, 0x91cec40a);
    Turn(25, Chain(0x1c2c2838, 0xc5d53d8d, 0xa7a3623f, 0xc2606d6d, 0x2823ef91, 0xaa47c347, 0x49f5114a, 0xe1257970),
         0xa831c66d, 0xb73679a2, 0x51d7d021, 0x7c10335c);
    Turn(26, Chain(0xcde8037d, 0x1c2c2838, 0xc5d53d8d, 0xa7a3623f, 0x14383d8e, 0x2823ef91, 0xaa47c347, 0x49f5114a),
         0xb00327c8, 0xe5bc3909, 0x1fa902d7, 0x9685c1e5);
    Turn(27, Chain(0xb62ec4bc, 0xcde8037d, 0x1c2c2838, 0xc5d53d8d, 0xc74c6516, 0x14383d8e, 0x2823ef91, 0xaa47c347),
         0xbf597fc7, 0x32663c5b, 0x282a826b, 0x4fa8f2bd);
    Turn(28, Chain(0x77d37528, 0xb62ec4bc, 0xcde8037d, 0x1c2c2838, 0xedffbff8, 0xc74c6516, 0x14383d8e, 0x2823ef91),
         0xc6e00bf3, 0x9d209d67, 0x44e67b7f, 0xf14e074a);
    Turn(29, Chain(0x363482c9, 0x77d37528, 0xb62ec4bc, 0xcde8037d, 0x6112a3b7, 0xedffbff8, 0xc74c6516, 0x14383d8e),
         0xd5a79147, 0xec8726cb, 0xdfff90ba, 0xc0067a76);
    Turn(30, Chain(0xa0060b30, 0x363482c9, 0x77d37528, 0xb62ec4bc, 0xade79437, 0x6112a3b7, 0xedffbff8, 0xc74c6516),
         0x06ca6351, 0x702138a4, 0x4adae67e, 0x9fbe43a4);
    Turn(31, Chain(0xea992a22, 0xa0060b30, 0x363482c9, 0x77d37528, 0x0109ab3a, 0xade79437, 0x6112a3b7, 0xedffbff8),
         0x14292967, 0xd3b7973b, 0x42859bea, 0x312da00b);
  }

  lemma Constants40()
    ensures |K| == 64
    ensures K[32] == 0x27b70a85 && K[33] == 0x2e1b2138 && K[34] == 0x4d2c6dfc && K[35] == 0x53380d13
    ensures K[36] == 0x650a7354 && K[37] == 0x766a0abb && K[38] == 0x81c2c92e && K[39] == 0x92722c85
  {
  }

  lemma Rounds40()
    ensures Rounds(INITIAL, BLOCK, 40)
         == Chain(0x79ea687a, 0x6dc57a8a, 0x34df1604, 0x41a65cb1, 0x1efbc0a0, 0xf0781bc8, 0xa507a53d, 0x0772a26b)
  {
    hide Rounds, Schedule, K;
    Constants40();
    Rounds32();
    Words32();
    Turn(32, Chain(0x73b33bf5, 0xea992a22, 0xa0060b30, 0x363482c9, 0xba591112, 0x0109ab3a, 0xade79437, 0x6112a3b7),
         0x27b70a85, 0x93f5997f, 0x66a5732d, 0x323bb1da);
    Turn(33, Chain(0x98e12507, 0x73b33bf5, 0xea992a22, 0xa0060b30, 0x9cd9f5f6, 0xba591112, 0x0109ab3a, 0xade79437),
         0x2e1b2138, 0x3b68ba73, 0xb91e92a3, 0x4541bb52);
    Turn(34, Chain(0xfe604df5, 0x98e12507, 0x73b33bf5, 0xea992a22, 0x59249dd3, 0x9cd9f5f6, 0xba591112, 0x0109ab3a),
         0x4d2c6dfc, 0xaff4ffc1, 0x1dc60e11, 0x8be1657b);
    Turn(35, Chain(0xa9a7738c, 0xfe604df5, 0x98e12507, 0x73b33bf5, 0x085f3833, 0x59249dd3, 0x9cd9f5f6, 0xba591112),
         0x53380d13, 0xf10a5c62, 0x80fcc6e1, 0xe4a40903);
    Turn(36, Chain(0x65a0cfe4, 0xa9a7738c, 0xfe604df5, 0x98e12507, 0xf4b002d6, 0x085f3833, 0x59249dd3, 0x9cd9f5f6),
         0x650a7354, 0x0a8b3996, 0x6e917d64, 0xd314df4d);
    Turn(37, Chain(0x41a65cb1, 0x65a0cfe4, 0xa9a7738c, 0xfe604df5, 0x0772a26b, 0xf4b002d6, 0x085f3833, 0x59249dd3),
         0x766a0abb, 0x72af830a, 0xa6a75748, 0x8e37bebc);
    Turn(38, Chain(0x34df1604, 0x41a65cb1, 0x65a0cfe4, 0xa9a7738c, 0xa507a53d, 0x0772a26b, 0xf4b002d6, 0x085f3833),
         0x81c2c92e, 0x9409e33e, 0x46d0a83c, 0x26f4d24e);
    Turn(39, Chain(0x6dc57a8a, 0x34df1604, 0x41a65cb1, 0x65a0cfe4, 0xf0781bc8, 0xa507a53d, 0x0772a26b, 0xf4b002d6),
         0x92722c85, 0x24641522, 0xb95af0bc, 0xc08f77be);
  }

  lemma Constants48()
    ensures |K| == 64
    ensures K[40] == 0xa2bfe8a1 && K[41] == 0xa81a664b && K[42] == 0xc24b8b70 && K[43] == 0xc76c51a3
    ensures K[44] == 0xd192e819 && K[45] == 0xd6990624 && K[46] == 0xf40e3585 && K[47] == 0x106aa070
  {
  }

  lemma Rounds48()
    ensures Rounds(INITIAL, BLOCK, 48)
         == Chain(0x4172328d, 0xa14c14b0, 0x72ab4b91, 0x26628815, 0xfecf0bc6, 0xd57b94a9, 0xb7755da1, 0xa80f11f0)
  {
    hide Rounds, Schedule, K;
    Constants48();
    Rounds40();
    Words32();
    Turn(40, Chain(0x79ea687a, 0x6dc57a8a, 0x34df1604, 0x41a65cb1, 0x1efbc0a0, 0xf0781bc8, 0xa507a53d, 0x0772a26b),
         0xa2bfe8a1, 0x9f47bf94, 0xe48ed0b2, 0xf1d836b4);
    Turn(41, Chain(0xd6670766, 0x79ea687a, 0x6dc57a8a, 0x34df1604, 0x26352d63, 0x1efbc0a0, 0xf0781bc8, 0xa507a53d),
         0xa81a664b, 0xf0a64f5a, 0x4eac110d, 0x909a5422);
    Turn(42, Chain(0xdf46652f, 0xd6670766, 0x79ea687a, 0x6dc57a8a, 0x838b2711, 0x26352d63, 0x1efbc0a0, 0xf0781bc8),
         0xc24b8b70, 0x3e246a79, 0x7107cc8b, 0xa6a24173);
    Turn(43, Chain(0x17aa0dfe, 0xdf46652f, 0xd6670766, 0x79ea687a, 0xdecd4715, 0x838b2711, 0x26352d63, 0x1efbc0a0),
         0xc76c51a3, 0x27333ba3, 0x83b7e3b4, 0x1993cbdf);
    Turn(44, Chain(0x9d4baf93, 0x17aa0dfe, 0xdf46652f, 0xd6670766, 0xfda24c2e, 0xdecd4715, 0x838b2711, 0x26352d63),
         0xd192e819, 0x0c4763f2, 0xd1a80a8a, 0x54ba7d8b);
    Turn(45, Chain(0x26628815, 0x9d4baf93, 0x17aa0dfe, 0xdf46652f, 0xa80f11f0, 0xfda24c2e, 0xdecd4715, 0x838b2711),
         0xd6990624, 0x840abf27, 0xd82ef872, 0x9a7c531f);
    Turn(46, Chain(0x72ab4b91, 0x26628815, 0x9d4baf93, 0x17aa0dfe, 0xb7755da1, 0xa80f11f0, 0xfda24c2e, 0xdecd4715),
         0xf40e3585, 0x7a290d5d, 0xbdd186ab, 0xe37a8e05);
    Turn(47, Chain(0xa14c14b0, 0x72ab4b91, 0x26628815, 0x9d4baf93, 0xd57b94a9, 0xb7755da1, 0xa80f11f0, 0xfda24c2e),
         0x106aa070, 0x065c43da, 0x61835c33, 0xdfeed65a);
  }

  lemma Constants56()
    ensures |K| == 64
    ensures K[48] == 0x19a4c116 && K[49] == 0x1e376c08 && K[50] == 0x2748774c && K[51] == 0x34b0bcb5
    ensures K[52] == 0x391c0cb3 && K[53] == 0x4ed8aa4a && K[54] == 0x5b9cca4f && K[55] == 0x682e6ff3
  {
  }

  lemma Rounds56()
    ensures Rounds(INITIAL, BLOCK, 56)
         == Chain(0x38cc9913, 0x3ec45cdb, 0xf5702fdb, 0x101fd28f, 0x54cb266b, 0xe50e1b4f, 0x9f4787c3, 0x529e7d00)
  {
    hide Rounds, Schedule, K;
    Constants56();
    Rounds48();
    Words48();
    Turn(48, Chain(0x4172328d, 0xa14c14b0, 0x72ab4b91, 0x26628815, 0xfecf0bc6, 0xd57b94a9, 0xb7755da1, 0xa80f11f0),
         0x19a4c116, 0xfb3e89cb, 0x970eb823, 0x6e66c4c8);
    Turn(49, Chain(0x05757ceb, 0x4172328d, 0xa14c14b0, 0x72ab4b91, 0xbd714038, 0xfecf0bc6, 0xd57b94a9, 0xb7755da1),
         0x1e376c08, 0xcc7617db, 0xfbb0ed7b, 0xf56b0d2d);
    Turn(50, Chain(0xf11bfaa8, 0x05757ceb, 0x4172328d, 0xa14c14b0, 0x6e5c390c, 0xbd714038, 0xfecf0bc6, 0xd57b94a9),
         0x2748774c, 0xb9e66c34, 0xb1a5b847, 0xc85f505a);
    Turn(51, Chain(0x7a0508a1, 0xf11bfaa8, 0x05757ceb, 0x4172328d, 0x52f1ccf7, 0x6e5c390c, 0xbd714038, 0xfecf0bc6),
         0x34b0bcb5, 0xa9993667, 0x07b0e991, 0x80bd9091);
    Turn(52, Chain(0x886e7a22, 0x7a0508a1, 0xf11bfaa8, 0x05757ceb, 0x49231c1e, 0x52f1ccf7, 0x6e5c390c, 0xbd714038),
         0x391c0cb3, 0x84badedd, 0x4d290015, 0xc2f6d27a);
    Turn(53, Chain(0x101fd28f, 0x886e7a22, 0x7a0508a1, 0xf11bfaa8, 0x529e7d00, 0x49231c1e, 0x52f1ccf7, 0x6e5c390c),
         0x4ed8aa4a, 0xc21462bc, 0xae2b8d1b, 0x4744a2c0);
    Turn(54, Chain(0xf5702fdb, 0x101fd28f, 0x886e7a22, 0x7a0508a1, 0x9f4787c3, 0x529e7d00, 0x49231c1e, 0x52f1ccf7),
         0x5b9cca4f, 0x1487472c, 0x6b0912ae, 0xd3bb4a2d);
    Turn(55, Chain(0x3ec45cdb, 0xf5702fdb, 0x101fd28f, 0x886e7a22, 0xe50e1b4f, 0x9f4787c3, 0x529e7d00, 0x49231c1e),
         0x682e6ff3, 0xb20f7a99, 0xcc5cac49, 0x6c6fecca);
  }

  lemma Constants64()
    ensures |K| == 64
    ensures K[56] == 0x748f82ee && K[57] == 0x78a5636f && K[58] == 0x84c87814 && K[59] == 0x8cc70208
    ensures K[60] == 0x90befffa && K[61] == 0xa4506ceb && K[62] == 0xbef9a3f7 && K[63] == 0xc67178f2
  {
  }

  lemma Rounds64()
    ensures Rounds(INITIAL, BLOCK, 64)
         == Chain(0x506e3058, 0xd39a2165, 0x04d24d6c, 0xb85e2ce9, 0x5ef50f24, 0xfb121210, 0x948d25b6, 0x961f4894)
  {
    hide Rounds, Schedule, K;
    Constants64();
    Rounds56();
    Words48();
    Turn(56, Chain(0x38cc9913, 0x3ec45cdb, 0xf5702fdb, 0x101fd28f, 0x54cb266b, 0xe50e1b4f, 0x9f4787c3, 0x529e7d00),
         0x748f82ee, 0xef57b9cd, 0x8b3ebddd, 0x7192ca9e);
    Turn(57, Chain(0xfcd1887b, 0x38cc9913, 0x3ec45cdb, 0xf5702fdb, 0x9b5e906c, 0x54cb266b, 0xe50e1b4f, 0x9f4787c3),
         0x78a5636f, 0xebe6b238, 0x88d3d0b3, 0x378f03bc);
    Turn(58, Chain(0xc062d46f, 0xfcd1887b, 0x38cc9913, 0x3ec45cdb, 0x7e44008e, 0x9b5e906c, 0x54cb266b, 0xe50e1b4f),
         0x84c87814, 0x9fe3095e, 0x2ebf62eb, 0xd0f7a187);
    Turn(59, Chain(0xffb70472, 0xc062d46f, 0xfcd1887b, 0x38cc9913, 0x6d83bfc6, 0x7e44008e, 0x9b5e906c, 0x54cb266b),
         0x8cc70208, 0x78bc8d4b, 0x794f142a, 0x3d5f7bd5);
    Turn(60, Chain(0xb6ae8fff, 0xffb70472, 0xc062d46f, 0xfcd1887b, 0xb21bad3d, 0x6d83bfc6, 0x7e44008e, 0x9b5e906c),
         0x90befffa, 0xa43fcf15, 0x994dc019, 0x1f106cd0);
    Turn(61, Chain(0xb85e2ce9, 0xb6ae8fff, 0xffb70472, 0xc062d46f, 0x961f4894, 0xb21bad3d, 0x6d83bfc6, 0x7e44008e),
         0xa4506ceb, 0x668b2ff8, 0xd42a5147, 0x30a7fc25);
    Turn(62, Chain(0x04d24d6c, 0xb85e2ce9, 0xb6ae8fff, 0xffb70472, 0x948d25b6, 0x961f4894, 0xb21bad3d, 0x6d83bfc6),
         0xbef9a3f7, 0xeeaba2cc, 0xfb5b0d9e, 0xd83f13c7);
    Turn(63, Chain(0xd39a2165, 0x04d24d6c, 0xb85e2ce9, 0xb6ae8fff, 0xfb121210, 0x948d25b6, 0x961f4894, 0xb21bad3d),
         0xc67178f2, 0x12b1edeb, 0xa8467f25, 0xa827b133);
  }

  lemma BlockCompressed()
    ensures Compress(INITIAL, BLOCK)
         == Chain(0xba7816bf, 0x8f01cfea, 0x414140de, 0x5dae2223, 0xb00361a3, 0x96177a9c, 0xb410ff61, 0xf20015ad)
  {
    hide Rounds;
    Rounds64();
    CompressUnfolds(INITIAL, BLOCK);
  }

  // ----- Padding -----

  /**
   * Section 5.1.1, place by place: the message, a one bit, zeros, and the number of bits in the last eight octets,
   * in the smallest number of blocks with room for all of them.
   */
  lemma PaddedExact(message: seq<byte>)
    ensures var n, p := |message|, message + Padding(|message|);
            && |p| % 64 == 0 && n + 9 <= |p| < n + 73 && p[..n] == message && p[n] == 0x80
            && (forall i :: n < i < |p| - 8 ==> p[i] == 0)
            && Number(p[|p| - 8..]) == 8 * n % 0x1_0000_0000_0000_0000
  {
    hide LengthField;
    var n, p := |message|, message + Padding(|message|);
    PaddingFills(n);
    assert p[|p| - 8..] == LengthField(8 * n);
    FieldNumber(8 * n);
  }

  /** Section 6.2.2: every block is taken into the chain of the blocks before it, and its result added to that. */
  lemma BlocksChain(data: seq<byte>, block: seq<byte>, n: nat)
    requires |data| == 64 * n && |block| == 64
    ensures Blocks(data, 0) == INITIAL
    ensures var before, after := Blocks(data, n), Blocks(data + block, n + 1);
            var r := Rounds(before, Words(block), 64);
            after == Chain(before.a + r.a, before.b + r.b, before.c + r.c, before.d + r.d,
                           before.e + r.e, before.f + r.f, before.g + r.g, before.h + r.h)
  {
    hide Words, Rounds, INITIAL;
    BlocksOfPrefix(data, block, n);
    assert (data + block)[64 * n..64 * n + 64] == block;
    CompressUnfolds(Blocks(data, n), Words(block));
  }

  /** The number octets stand for, the highest one first. */
  function Number(s: seq<byte>): nat {
    if s == [] then 0 else 0x100 * Number(s[..|s| - 1]) + s[|s| - 1]
  }

  lemma {:induction false} NumberAppend(a: seq<byte>, b: seq<byte>)
    requires |b| == 4
    ensures Number(a + b)
         == 0x1_0000_0000 * Number(a) + 0x100_0000 * b[0] as int + 0x1_0000 * b[1] as int + 0x100 * b[2] as int + b[3]
  {
    var n := |a|;
    var s1, s2, s3, s4 := a + [b[0]], a + [b[0], b[1]], a + [b[0], b[1], b[2]], a + b;
    assert s1[..n] == a && s2[..n + 1] == s1 && s3[..n + 2] == s2 && s4[..n + 3] == s3;
    assert Number(s1) == 0x100 * Number(a) + b[0] && Number(s2) == 0x100 * Number(s1) + b[1];
    assert Number(s3) == 0x100 * Number(s2) + b[2] && Number(s4) == 0x100 * Number(s3) + b[3];
  }

  lemma FieldNumber(bits: nat)
    ensures Number(LengthField(bits)) == bits % 0x1_0000_0000_0000_0000
  {
    hide Number, WordField;
    var high, low := bits / 0x1_0000_0000 % 0x1_0000_0000, bits % 0x1_0000_0000;
    NumberAppend([], WordField(high));
    NumberAppend(WordField(high), WordField(low));
    assert [] + WordField(high) == WordField(high);
    WordNumber(high);
    WordNumber(low);
    NoNumber();
    assert bits % 0x1_0000_0000_0000_0000 == 0x1_0000_0000 * high + low by {
      Halves(bits);
    }
  }

  lemma NoNumber()
    ensures Number([]) == 0
  {
  }

  lemma WordNumber(w: uint32)
    ensures var f := WordField(w);
            0x100_0000 * f[0] as int + 0x1_0000 * f[1] as int + 0x100 * f[2] as int + f[3] == w
  {
    var high, low := w / 0x1_0000, w % 0x1_0000;
    assert w / 0x100_0000 == high / 0x100 && w / 0x100 == 0x100 * high + low / 0x100;
  }

  lemma Halves(n: nat)
    ensures n % 0x1_0000_0000_0000_0000 == 0x1_0000_0000 * (n / 0x1_0000_0000 % 0x1_0000_0000) + n % 0x1_0000_0000
  {
    var q := n / 0x1_0000_0000_0000_0000;
    assert n / 0x1_0000_0000 == 0x1_0000_0000 * q + n / 0x1_0000_0000 % 0x1_0000_0000;
  }

  // ----- The hash -----

  lemma ThreePadded()
    ensures Padding(3) == [0x80] + seq(52, _ => 0) + [0, 0, 0, 0, 0, 0, 0, 24]
  {
    assert LengthField(24) == [0, 0, 0, 0] + [0, 0, 0, 24];
  }

  lemma AbcPadded()
    ensures |[0x61, 0x62, 0x63] + Padding(3)| == 64 && PaddedBlocks(3) == 1
    ensures Words([0x61, 0x62, 0x63] + Padding(3)) == BLOCK
  {
    hide Padding, BigEndianWord;
    ThreePadded();
    var data := [0x61, 0x62, 0x63] + Padding(3);
    WordValues();
    assert data[0] == 0x61 && data[1] == 0x62 && data[2] == 0x63 && data[3] == 0x80;
    assert forall i :: 4 <= i < 63 ==> data[i] == 0;
    assert data[63] == 24;
    forall i | 0 <= i < 16 ensures Words(data)[i] == BLOCK[i] {
      assert BLOCK[i] == if i == 0 then 0x61626380 else if i == 15 then 0x18 else 0;
    }
  }

  lemma WordValues()
    ensures BigEndianWord(0x61, 0x62, 0x63, 0x80) == 0x61626380
    ensures BigEndianWord(0, 0, 0, 0) == 0 && BigEndianWord(0, 0, 0, 24) == 0x18
  {
  }

  /** ba7816bf 8f01cfea 414140de 5dae2223 b00361a3 96177a9c b410ff61 f20015ad. */
  lemma AbcDigest()
    ensures Digest([0x61, 0x62, 0x63]) == [
      0xba, 0x78, 0x16, 0xbf, 0x8f, 0x01, 0xcf, 0xea, 0x41, 0x41, 0x40, 0xde, 0x5d, 0xae, 0x22, 0x23,
      0xb0, 0x03, 0x61, 0xa3, 0x96, 0x17, 0x7a, 0x9c, 0xb4, 0x10, 0xff, 0x61, 0xf2, 0x00, 0x15, 0xad]
    ensures Hash48([0x61, 0x62, 0x63]) == [0xba, 0x78, 0x16, 0xbf, 0x8f, 0x01]
  {
    hide Compress, Padding, Words, Blocks, WordOctets;
    AbcPadded();
    BlockCompressed();
    OneBlock([0x61, 0x62, 0x63] + Padding(3));
    DigestOctets();
  }

  lemma OneBlock(data: seq<byte>)
    requires |data| == 64
    ensures Blocks(data, 1) == Compress(INITIAL, Words(data))
  {
    hide Compress, Words, INITIAL;
    assert data[0..64] == data;
  }

  lemma DigestOctets()
    ensures WordOctets(0xba7816bf) == [0xba, 0x78, 0x16, 0xbf] && WordOctets(0x8f01cfea) == [0x8f, 0x01, 0xcf, 0xea]
    ensures WordOctets(0x414140de) == [0x41, 0x41, 0x40, 0xde] && WordOctets(0x5dae2223) == [0x5d, 0xae, 0x22, 0x23]
    ensures WordOctets(0xb00361a3) == [0xb0, 0x03, 0x61, 0xa3] && WordOctets(0x96177a9c) == [0x96, 0x17, 0x7a, 0x9c]
    ensures WordOctets(0xb410ff61) == [0xb4, 0x10, 0xff, 0x61] && WordOctets(0xf20015ad) == [0xf2, 0x00, 0x15, 0xad]
  {
  }
}
