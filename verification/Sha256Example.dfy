/**
 The example of one block that SHA-256 is published with: the digest of "abc", with the message schedule and the working
 variables of all 64 rounds.
 */
module Sha256Example {
  import opened Utf8
  import opened Crc32
  import opened CrcExample
  import opened WalFrames
  import opened Sha256Words
  import opened Sha256Standard

  const ABC: Bytes := [0x61, 0x62, 0x63]

  /** The one block of the padded message. */
  function Block(): (b: Bytes)
    ensures |b| == 64
  {
    ABC + [0x80] + Zeros(59) + [0x18]
  }

  // ---------------------------------------------------------------- the message schedule

  /** This is word `t` of the schedule. */
  ghost predicate IsWord(t: nat, w: bv32) { forall n: nat :: n == t ==> Schedule(Block(), n) == w }

  predicate Extends(w2: bv32, w7: bv32, w15: bv32, w16: bv32, w: bv32) { Extended(w2, w7, w15, w16) == w }

  lemma NextWord(t: nat, w2: bv32, w7: bv32, w15: bv32, w16: bv32, w: bv32)
    requires t >= 16 && IsWord(t - 2, w2) && IsWord(t - 7, w7) && IsWord(t - 15, w15) && IsWord(t - 16, w16)
    requires Extends(w2, w7, w15, w16, w)
    ensures IsWord(t, w)
  {
    hide Extended, WordAt, Block;
    assert Schedule(Block(), t) == Extended(Schedule(Block(), t - 2), Schedule(Block(), t - 7),
                                            Schedule(Block(), t - 15), Schedule(Block(), t - 16));
  }

  predicate WordReads(b0: Byte, b1: Byte, b2: Byte, b3: Byte, w: bv32) { WordOf(b0, b1, b2, b3) == w }

  lemma ByteReads()
    ensures Reads(0, 0) && Reads(0x18, 0x18) && Reads(0x61, 0x61) && Reads(0x62, 0x62) && Reads(0x63, 0x63)
    ensures Reads(0x80, 0x80)
  {
    hide Reads;
    PackedByte(false, false, false, false, false, false, false, false, 0x0, 0x0);
    PackedByte(false, false, false, true, true, false, false, false, 0x18, 0x18);
    PackedByte(false, true, true, false, false, false, false, true, 0x61, 0x61);
    PackedByte(false, true, true, false, false, false, true, false, 0x62, 0x62);
    PackedByte(false, true, true, false, false, false, true, true, 0x63, 0x63);
    PackedByte(true, false, false, false, false, false, false, false, 0x80, 0x80);
  }

  lemma FirstWords()
    ensures WordReads(0x61, 0x62, 0x63, 0x80, 0x61626380) && WordReads(0, 0, 0, 0, 0) && WordReads(0, 0, 0, 0x18, 0x18)
  {
    ByteReads();
    hide Bits;
  }

  lemma BlockWords()
    ensures IsWord(0, 0x61626380) && IsWord(15, 0x18) && forall t :: 1 <= t < 15 ==> IsWord(t, 0)
  {
    hide WordOf, WordReads;
    FirstWords();
    var b := Block();
    assert b[0] == 0x61 && b[1] == 0x62 && b[2] == 0x63 && b[3] == 0x80 && b[63] == 0x18;
    WordIs(0);
    WordIs(15);
    forall t | 1 <= t < 15 ensures IsWord(t, 0) { WordIs(t); }
  }

  lemma WordIs(t: nat)
    requires t < 16
    ensures var b := Block();
            forall w :: WordReads(b[4 * t], b[4 * t + 1], b[4 * t + 2], b[4 * t + 3], w) ==> IsWord(t, w)
  {
    hide WordOf;
  }

  lemma Words16()
    ensures IsWord(16, 0x61626380) && IsWord(17, 0x000f0000) && IsWord(18, 0x7da86405) && IsWord(19, 0x600003c6)
    ensures IsWord(20, 0x3e9d7b78) && IsWord(21, 0x0183fc00) && IsWord(22, 0x12dcbfdb) && IsWord(23, 0xe2e2c38e)
  {
    hide IsWord;
    BlockWords();
    NextWord(16, 0x00000000, 0x00000000, 0x00000000, 0x61626380, 0x61626380);
    NextWord(17, 0x00000018, 0x00000000, 0x00000000, 0x00000000, 0x000f0000);
    NextWord(18, 0x61626380, 0x00000000, 0x00000000, 0x00000000, 0x7da86405);
    NextWord(19, 0x000f0000, 0x00000000, 0x00000000, 0x00000000, 0x600003c6);
    NextWord(20, 0x7da86405, 0x00000000, 0x00000000, 0x00000000, 0x3e9d7b78);
    NextWord(21, 0x600003c6, 0x00000000, 0x00000000, 0x00000000, 0x0183fc00);
    NextWord(22, 0x3e9d7b78, 0x00000018, 0x00000000, 0x00000000, 0x12dcbfdb);
    NextWord(23, 0x0183fc00, 0x61626380, 0x00000000, 0x00000000, 0xe2e2c38e);
  }

  lemma Words24()
    ensures IsWord(24, 0xc8215c1a) && IsWord(25, 0xb73679a2) && IsWord(26, 0xe5bc3909) && IsWord(27, 0x32663c5b)
    ensures IsWord(28, 0x9d209d67) && IsWord(29, 0xec8726cb) && IsWord(30, 0x702138a4) && IsWord(31, 0xd3b7973b)
  {
    hide IsWord;
    BlockWords();
    Words16();
    NextWord(24, 0x12dcbfdb, 0x000f0000, 0x00000000, 0x00000000, 0xc8215c1a);
    NextWord(25, 0xe2e2c38e, 0x7da86405, 0x00000000, 0x00000000, 0xb73679a2);
    NextWord(26, 0xc8215c1a, 0x600003c6, 0x00000000, 0x00000000, 0xe5bc3909);
    NextWord(27, 0xb73679a2, 0x3e9d7b78, 0x00000000, 0x00000000, 0x32663c5b);
    NextWord(28, 0xe5bc3909, 0x0183fc00, 0x00000000, 0x00000000, 0x9d209d67);
    NextWord(29, 0x32663c5b, 0x12dcbfdb, 0x00000000, 0x00000000, 0xec8726cb);
    NextWord(30, 0x9d209d67, 0xe2e2c38e, 0x00000018, 0x00000000, 0x702138a4);
    NextWord(31, 0xec8726cb, 0xc8215c1a, 0x61626380, 0x00000018, 0xd3b7973b);
  }

  lemma Words32()
    ensures IsWord(32, 0x93f5997f) && IsWord(33, 0x3b68ba73) && IsWord(34, 0xaff4ffc1) && IsWord(35, 0xf10a5c62)
    ensures IsWord(36, 0x0a8b3996) && IsWord(37, 0x72af830a) && IsWord(38, 0x9409e33e) && IsWord(39, 0x24641522)
  {
    hide IsWord;
    BlockWords();
    Words16();
    Words24();
    NextWord(32, 0x702138a4, 0xb73679a2, 0x000f0000, 0x61626380, 0x93f5997f);
    NextWord(33, 0xd3b7973b, 0xe5bc3909, 0x7da86405, 0x000f0000, 0x3b68ba73);
    NextWord(34, 0x93f5997f, 0x32663c5b, 0x600003c6, 0x7da86405, 0xaff4ffc1);
    NextWord(35, 0x3b68ba73, 0x9d209d67, 0x3e9d7b78, 0x600003c6, 0xf10a5c62);
    NextWord(36, 0xaff4ffc1, 0xec8726cb, 0x0183fc00, 0x3e9d7b78, 0x0a8b3996);
    NextWord(37, 0xf10a5c62, 0x702138a4, 0x12dcbfdb, 0x0183fc00, 0x72af830a);
    NextWord(38, 0x0a8b3996, 0xd3b7973b, 0xe2e2c38e, 0x12dcbfdb, 0x9409e33e);
    NextWord(39, 0x72af830a, 0x93f5997f, 0xc8215c1a, 0xe2e2c38e, 0x24641522);
  }

  lemma Words40()
    ensures IsWord(40, 0x9f47bf94) && IsWord(41, 0xf0a64f5a) && IsWord(42, 0x3e246a79) && IsWord(43, 0x27333ba3)
    ensures IsWord(44, 0x0c4763f2) && IsWord(45, 0x840abf27) && IsWord(46, 0x7a290d5d) && IsWord(47, 0x065c43da)
  {
    hide IsWord;
    BlockWords();
    Words24();
    Words32();
    NextWord(40, 0x9409e33e, 0x3b68ba73, 0xb73679a2, 0xc8215c1a, 0x9f47bf94);
    NextWord(41, 0x24641522, 0xaff4ffc1, 0xe5bc3909, 0xb73679a2, 0xf0a64f5a);
    NextWord(42, 0x9f47bf94, 0xf10a5c62, 0x32663c5b, 0xe5bc3909, 0x3e246a79);
    NextWord(43, 0xf0a64f5a, 0x0a8b3996, 0x9d209d67, 0x32663c5b, 0x27333ba3);
    NextWord(44, 0x3e246a79, 0x72af830a, 0xec8726cb, 0x9d209d67, 0x0c4763f2);
    NextWord(45, 0x27333ba3, 0x9409e33e, 0x702138a4, 0xec8726cb, 0x840abf27);
    NextWord(46, 0x0c4763f2, 0x24641522, 0xd3b7973b, 0x702138a4, 0x7a290d5d);
    NextWord(47, 0x840abf27, 0x9f47bf94, 0x93f5997f, 0xd3b7973b, 0x065c43da);
  }

  lemma Words48()
    ensures IsWord(48, 0xfb3e89cb) && IsWord(49, 0xcc7617db) && IsWord(50, 0xb9e66c34) && IsWord(51, 0xa9993667)
    ensures IsWord(52, 0x84badedd) && IsWord(53, 0xc21462bc) && IsWord(54, 0x1487472c) && IsWord(55, 0xb20f7a99)
  {
    hide IsWord;
    BlockWords();
    Words32();
    Words40();
    NextWord(48, 0x7a290d5d, 0xf0a64f5a, 0x3b68ba73, 0x93f5997f, 0xfb3e89cb);
    NextWord(49, 0x065c43da, 0x3e246a79, 0xaff4ffc1, 0x3b68ba73, 0xcc7617db);
    NextWord(50, 0xfb3e89cb, 0x27333ba3, 0xf10a5c62, 0xaff4ffc1, 0xb9e66c34);
    NextWord(51, 0xcc7617db, 0x0c4763f2, 0x0a8b3996, 0xf10a5c62, 0xa9993667);
    NextWord(52, 0xb9e66c34, 0x840abf27, 0x72af830a, 0x0a8b3996, 0x84badedd);
    NextWord(53, 0xa9993667, 0x7a290d5d, 0x9409e33e, 0x72af830a, 0xc21462bc);
    NextWord(54, 0x84badedd, 0x065c43da, 0x24641522, 0x9409e33e, 0x1487472c);
    NextWord(55, 0xc21462bc, 0xfb3e89cb, 0x9f47bf94, 0x24641522, 0xb20f7a99);
  }

  lemma Words56()
    ensures IsWord(56, 0xef57b9cd) && IsWord(57, 0xebe6b238) && IsWord(58, 0x9fe3095e) && IsWord(59, 0x78bc8d4b)
    ensures IsWord(60, 0xa43fcf15) && IsWord(61, 0x668b2ff8) && IsWord(62, 0xeeaba2cc) && IsWord(63, 0x12b1edeb)
  {
    hide IsWord;
    BlockWords();
    Words40();
    Words48();
    NextWord(56, 0x1487472c, 0xcc7617db, 0xf0a64f5a, 0x9f47bf94, 0xef57b9cd);
    NextWord(57, 0xb20f7a99, 0xb9e66c34, 0x3e246a79, 0xf0a64f5a, 0xebe6b238);
    NextWord(58, 0xef57b9cd, 0xa9993667, 0x27333ba3, 0x3e246a79, 0x9fe3095e);
    NextWord(59, 0xebe6b238, 0x84badedd, 0x0c4763f2, 0x27333ba3, 0x78bc8d4b);
    NextWord(60, 0x9fe3095e, 0xc21462bc, 0x840abf27, 0x0c4763f2, 0xa43fcf15);
    NextWord(61, 0x78bc8d4b, 0x1487472c, 0x7a290d5d, 0x840abf27, 0x668b2ff8);
    NextWord(62, 0xa43fcf15, 0xb20f7a99, 0x065c43da, 0x7a290d5d, 0xeeaba2cc);
    NextWord(63, 0x668b2ff8, 0xef57b9cd, 0xfb3e89cb, 0x065c43da, 0x12b1edeb);
  }

  // ---------------------------------------------------------------- the rounds

  predicate IsConstant(t: nat, k: bv32) { t < 64 && K()[t] == k }

  lemma Constants0()
    ensures IsConstant(0, 0x428a2f98) && IsConstant(1, 0x71374491) && IsConstant(2, 0xb5c0fbcf)
    ensures IsConstant(3, 0xe9b5dba5)
    ensures IsConstant(4, 0x3956c25b) && IsConstant(5, 0x59f111f1) && IsConstant(6, 0x923f82a4)
    ensures IsConstant(7, 0xab1c5ed5)
  {
  }

  lemma Constants8()
    ensures IsConstant(8, 0xd807aa98) && IsConstant(9, 0x12835b01) && IsConstant(10, 0x243185be)
    ensures IsConstant(11, 0x550c7dc3)
    ensures IsConstant(12, 0x72be5d74) && IsConstant(13, 0x80deb1fe) && IsConstant(14, 0x9bdc06a7)
    ensures IsConstant(15, 0xc19bf174)
  {
  }

  lemma Constants16()
    ensures IsConstant(16, 0xe49b69c1) && IsConstant(17, 0xefbe4786) && IsConstant(18, 0x0fc19dc6)
    ensures IsConstant(19, 0x240ca1cc)
    ensures IsConstant(20, 0x2de92c6f) && IsConstant(21, 0x4a7484aa) && IsConstant(22, 0x5cb0a9dc)
    ensures IsConstant(23, 0x76f988da)
  {
  }

  lemma Constants24()
    ensures IsConstant(24, 0x983e5152) && IsConstant(25, 0xa831c66d) && IsConstant(26, 0xb00327c8)
    ensures IsConstant(27, 0xbf597fc7)
    ensures IsConstant(28, 0xc6e00bf3) && IsConstant(29, 0xd5a79147) && IsConstant(30, 0x06ca6351)
    ensures IsConstant(31, 0x14292967)
  {
  }

  lemma Constants32()
    ensures IsConstant(32, 0x27b70a85) && IsConstant(33, 0x2e1b2138) && IsConstant(34, 0x4d2c6dfc)
    ensures IsConstant(35, 0x53380d13)
    ensures IsConstant(36, 0x650a7354) && IsConstant(37, 0x766a0abb) && IsConstant(38, 0x81c2c92e)
    ensures IsConstant(39, 0x92722c85)
  {
  }

  lemma Constants40()
    ensures IsConstant(40, 0xa2bfe8a1) && IsConstant(41, 0xa81a664b) && IsConstant(42, 0xc24b8b70)
    ensures IsConstant(43, 0xc76c51a3)
    ensures IsConstant(44, 0xd192e819) && IsConstant(45, 0xd6990624) && IsConstant(46, 0xf40e3585)
    ensures IsConstant(47, 0x106aa070)
  {
  }

  lemma Constants48()
    ensures IsConstant(48, 0x19a4c116) && IsConstant(49, 0x1e376c08) && IsConstant(50, 0x2748774c)
    ensures IsConstant(51, 0x34b0bcb5)
    ensures IsConstant(52, 0x391c0cb3) && IsConstant(53, 0x4ed8aa4a) && IsConstant(54, 0x5b9cca4f)
    ensures IsConstant(55, 0x682e6ff3)
  {
  }

  lemma Constants56()
    ensures IsConstant(56, 0x748f82ee) && IsConstant(57, 0x78a5636f) && IsConstant(58, 0x84c87814)
    ensures IsConstant(59, 0x8cc70208)
    ensures IsConstant(60, 0x90befffa) && IsConstant(61, 0xa4506ceb) && IsConstant(62, 0xbef9a3f7)
    ensures IsConstant(63, 0xc67178f2)
  {
  }

  /** The working variables before round `t`. */
  ghost predicate Before(t: nat, v: Vars) { t <= 64 && forall n: nat :: n == t ==> Rounds(Initial(), Block(), n) == v }

  /** One round, from all eight variables to the two that are not moved. */
  predicate Leads(v: Vars, k: bv32, w: bv32, a: bv32, e: bv32)
  {
    Round(v, k, w) == Vars(a, v.a, v.b, v.c, e, v.e, v.f, v.g)
  }

  lemma NextRound(t: nat, v: Vars, k: bv32, w: bv32, a: bv32, e: bv32)
    requires Before(t, v) && IsConstant(t, k) && IsWord(t, w) && Leads(v, k, w, a, e)
    ensures Before(t + 1, Vars(a, v.a, v.b, v.c, e, v.e, v.f, v.g))
  {
    hide Round, K, Block, Initial;
    assert Rounds(Initial(), Block(), t + 1) == Round(Rounds(Initial(), Block(), t), K()[t], Schedule(Block(), t));
  }

  lemma NoRounds()
    ensures Before(0, Initial())
  {
  }

  lemma Rounds0()
    ensures Before(8,
                   Vars(0x85a07b5f, 0xe5030380, 0x2b4209f5, 0x04409a6a, 0x0c657a79, 0x9b27a401, 0x714260ad, 0x43ada245))
  {
    hide Before, IsWord, IsConstant, Schedule;
    Constants0();
    BlockWords();
    NoRounds();
    NextRound(0, Vars(0x6a09e667, 0xbb67ae85, 0x3c6ef372, 0xa54ff53a, 0x510e527f, 0x9b05688c, 0x1f83d9ab, 0x5be0cd19),
              0x428a2f98, 0x61626380, 0x5d6aebcd, 0xfa2a4622);
    NextRound(1, Vars(0x5d6aebcd, 0x6a09e667, 0xbb67ae85, 0x3c6ef372, 0xfa2a4622, 0x510e527f, 0x9b05688c, 0x1f83d9ab),
              0x71374491, 0x00000000, 0x5a6ad9ad, 0x78ce7989);
    NextRound(2, Vars(0x5a6ad9ad, 0x5d6aebcd, 0x6a09e667, 0xbb67ae85, 0x78ce7989, 0xfa2a4622, 0x510e527f, 0x9b05688c),
              0xb5c0fbcf, 0x00000000, 0xc8c347a7, 0xf92939eb);
    NextRound(3, Vars(0xc8c347a7, 0x5a6ad9ad, 0x5d6aebcd, 0x6a09e667, 0xf92939eb, 0x78ce7989, 0xfa2a4622, 0x510e527f),
              0xe9b5dba5, 0x00000000, 0xd550f666, 0x24e00850);
    NextRound(4, Vars(0xd550f666, 0xc8c347a7, 0x5a6ad9ad, 0x5d6aebcd, 0x24e00850, 0xf92939eb, 0x78ce7989, 0xfa2a4622),
              0x3956c25b, 0x00000000, 0x04409a6a, 0x43ada245);
    NextRound(5, Vars(0x04409a6a, 0xd550f666, 0xc8c347a7, 0x5a6ad9ad, 0x43ada245, 0x24e00850, 0xf92939eb, 0x78ce7989),
              0x59f111f1, 0x00000000, 0x2b4209f5, 0x714260ad);
    NextRound(6, Vars(0x2b4209f5, 0x04409a6a, 0xd550f666, 0xc8c347a7, 0x714260ad, 0x43ada245, 0x24e00850, 0xf92939eb),
              0x923f82a4, 0x00000000, 0xe5030380, 0x9b27a401);
    NextRound(7, Vars(0xe5030380, 0x2b4209f5, 0x04409a6a, 0xd550f666, 0x9b27a401, 0x714260ad, 0x43ada245, 0x24e00850),
              0xab1c5ed5, 0x00000000, 0x85a07b5f, 0x0c657a79);
  }

  lemma Rounds8()
    ensures Before(16,
                   Vars(0xb0fa238e, 0xc0645fde, 0xd932eb16, 0x87912990, 0x07590dcd, 0x0b92f20c, 0x745a48de, 0x1e578218))
  {
    hide Before, IsWord, IsConstant, Schedule;
    Constants8();
    BlockWords();
    Rounds0();
    NextRound(8, Vars(0x85a07b5f, 0xe5030380, 0x2b4209f5, 0x04409a6a, 0x0c657a79, 0x9b27a401, 0x714260ad, 0x43ada245),
              0xd807aa98, 0x00000000, 0x8e04ecb9, 0x32ca2d8c);
    NextRound(9, Vars(0x8e04ecb9, 0x85a07b5f, 0xe5030380, 0x2b4209f5, 0x32ca2d8c, 0x0c657a79, 0x9b27a401, 0x714260ad),
              0x12835b01, 0x00000000, 0x8c87346b, 0x1cc92596);
    NextRound(10, Vars(0x8c87346b, 0x8e04ecb9, 0x85a07b5f, 0xe5030380, 0x1cc92596, 0x32ca2d8c, 0x0c657a79, 0x9b27a401),
              0x243185be, 0x00000000, 0x4798a3f4, 0x436b23e8);
    NextRound(11, Vars(0x4798a3f4, 0x8c87346b, 0x8e04ecb9, 0x85a07b5f, 0x436b23e8, 0x1cc92596, 0x32ca2d8c, 0x0c657a79),
              0x550c7dc3, 0x00000000, 0xf71fc5a9, 0x816fd6e9);
    NextRound(12, Vars(0xf71fc5a9, 0x4798a3f4, 0x8c87346b, 0x8e04ecb9, 0x816fd6e9, 0x436b23e8, 0x1cc92596, 0x32ca2d8c),
              0x72be5d74, 0x00000000, 0x87912990, 0x1e578218);
    NextRound(13, Vars(0x87912990, 0xf71fc5a9, 0x4798a3f4, 0x8c87346b, 0x1e578218, 0x816fd6e9, 0x436b23e8, 0x1cc92596),
              0x80deb1fe, 0x00000000, 0xd932eb16, 0x745a48de);
    NextRound(14, Vars(0xd932eb16, 0x87912990, 0xf71fc5a9, 0x4798a3f4, 0x745a48de, 0x1e578218, 0x816fd6e9, 0x436b23e8),
              0x9bdc06a7, 0x00000000, 0xc0645fde, 0x0b92f20c);
    NextRound(15, Vars(0xc0645fde, 0xd932eb16, 0x87912990, 0xf71fc5a9, 0x0b92f20c, 0x745a48de, 0x1e578218, 0x816fd6e9),
              0xc19bf174, 0x00000018, 0xb0fa238e, 0x07590dcd);
  }

  lemma Rounds16()
    ensures Before(24,
                   Vars(0xc5d53d8d, 0xa7a3623f, 0xc2606d6d, 0x9dc68b63, 0xaa47c347, 0x49f5114a, 0xe1257970, 0x8ada8930))
  {
    hide Before, IsWord, IsConstant, Schedule;
    Constants16();
    Words16();
    Rounds8();
    NextRound(16, Vars(0xb0fa238e, 0xc0645fde, 0xd932eb16, 0x87912990, 0x07590dcd, 0x0b92f20c, 0x745a48de, 0x1e578218),
              0xe49b69c1, 0x61626380, 0x21da9a9b, 0x8034229c);
    NextRound(17, Vars(0x21da9a9b, 0xb0fa238e, 0xc0645fde, 0xd932eb16, 0x8034229c, 0x07590dcd, 0x0b92f20c, 0x745a48de),
              0xefbe4786, 0x000f0000, 0xc2fbd9d1, 0x846ee454);
    NextRound(18, Vars(0xc2fbd9d1, 0x21da9a9b, 0xb0fa238e, 0xc0645fde, 0x846ee454, 0x8034229c, 0x07590dcd, 0x0b92f20c),
              0x0fc19dc6, 0x7da86405, 0xfe777bbf, 0xcc899961);
    NextRound(19, Vars(0xfe777bbf, 0xc2fbd9d1, 0x21da9a9b, 0xb0fa238e, 0xcc899961, 0x846ee454, 0x8034229c, 0x07590dcd),
              0x240ca1cc, 0x600003c6, 0xe1f20c33, 0xb0638179);
    NextRound(20, Vars(0xe1f20c33, 0xfe777bbf, 0xc2fbd9d1, 0x21da9a9b, 0xb0638179, 0xcc899961, 0x846ee454, 0x8034229c),
              0x2de92c6f, 0x3e9d7b78, 0x9dc68b63, 0x8ada8930);
    NextRound(21, Vars(0x9dc68b63, 0xe1f20c33, 0xfe777bbf, 0xc2fbd9d1, 0x8ada8930, 0xb0638179, 0xcc899961, 0x846ee454),
              0x4a7484aa, 0x0183fc00, 0xc2606d6d, 0xe1257970);
    NextRound(22, Vars(0xc2606d6d, 0x9dc68b63, 0xe1f20c33, 0xfe777bbf, 0xe1257970, 0x8ada8930, 0xb0638179, 0xcc899961),
              0x5cb0a9dc, 0x12dcbfdb, 0xa7a3623f, 0x49f5114a);
    NextRound(23, Vars(0xa7a3623f, 0xc2606d6d, 0x9dc68b63, 0xe1f20c33, 0x49f5114a, 0xe1257970, 0x8ada8930, 0xb0638179),
              0x76f988da, 0xe2e2c38e, 0xc5d53d8d, 0xaa47c347);
  }

  lemma Rounds24()
    ensures Before(32,
                   Vars(0x73b33bf5, 0xea992a22, 0xa0060b30, 0x363482c9, 0xba591112, 0x0109ab3a, 0xade79437, 0x6112a3b7))
  {
    hide Before, IsWord, IsConstant, Schedule;
    Constants24();
    Words24();
    Rounds16();
    NextRound(24, Vars(0xc5d53d8d, 0xa7a3623f, 0xc2606d6d, 0x9dc68b63, 0xaa47c347, 0x49f5114a, 0xe1257970, 0x8ada8930),
              0x983e5152, 0xc8215c1a, 0x1c2c2838, 0x2823ef91);
    NextRound(25, Vars(0x1c2c2838, 0xc5d53d8d, 0xa7a3623f, 0xc2606d6d, 0x2823ef91, 0xaa47c347, 0x49f5114a, 0xe1257970),
              0xa831c66d, 0xb73679a2, 0xcde8037d, 0x14383d8e);
    NextRound(26, Vars(0xcde8037d, 0x1c2c2838, 0xc5d53d8d, 0xa7a3623f, 0x14383d8e, 0x2823ef91, 0xaa47c347, 0x49f5114a),
              0xb00327c8, 0xe5bc3909, 0xb62ec4bc, 0xc74c6516);
    NextRound(27, Vars(0xb62ec4bc, 0xcde8037d, 0x1c2c2838, 0xc5d53d8d, 0xc74c6516, 0x14383d8e, 0x2823ef91, 0xaa47c347),
              0xbf597fc7, 0x32663c5b, 0x77d37528, 0xedffbff8);
    NextRound(28, Vars(0x77d37528, 0xb62ec4bc, 0xcde8037d, 0x1c2c2838, 0xedffbff8, 0xc74c6516, 0x14383d8e, 0x2823ef91),
              0xc6e00bf3, 0x9d209d67, 0x363482c9, 0x6112a3b7);
    NextRound(29, Vars(0x363482c9, 0x77d37528, 0xb62ec4bc, 0xcde8037d, 0x6112a3b7, 0xedffbff8, 0xc74c6516, 0x14383d8e),
              0xd5a79147, 0xec8726cb, 0xa0060b30, 0xade79437);
    NextRound(30, Vars(0xa0060b30, 0x363482c9, 0x77d37528, 0xb62ec4bc, 0xade79437, 0x6112a3b7, 0xedffbff8, 0xc74c6516),
              0x06ca6351, 0x702138a4, 0xea992a22, 0x0109ab3a);
    NextRound(31, Vars(0xea992a22, 0xa0060b30, 0x363482c9, 0x77d37528, 0x0109ab3a, 0xade79437, 0x6112a3b7, 0xedffbff8),
              0x14292967, 0xd3b7973b, 0x73b33bf5, 0xba591112);
  }

  lemma Rounds32()
    ensures Before(40,
                   Vars(0x79ea687a, 0x6dc57a8a, 0x34df1604, 0x41a65cb1, 0x1efbc0a0, 0xf0781bc8, 0xa507a53d, 0x0772a26b))
  {
    hide Before, IsWord, IsConstant, Schedule;
    Constants32();
    Words32();
    Rounds24();
    NextRound(32, Vars(0x73b33bf5, 0xea992a22, 0xa0060b30, 0x363482c9, 0xba591112, 0x0109ab3a, 0xade79437, 0x6112a3b7),
              0x27b70a85, 0x93f5997f, 0x98e12507, 0x9cd9f5f6);
    NextRound(33, Vars(0x98e12507, 0x73b33bf5, 0xea992a22, 0xa0060b30, 0x9cd9f5f6, 0xba591112, 0x0109ab3a, 0xade79437),
              0x2e1b2138, 0x3b68ba73, 0xfe604df5, 0x59249dd3);
    NextRound(34, Vars(0xfe604df5, 0x98e12507, 0x73b33bf5, 0xea992a22, 0x59249dd3, 0x9cd9f5f6, 0xba591112, 0x0109ab3a),
              0x4d2c6dfc, 0xaff4ffc1, 0xa9a7738c, 0x085f3833);
    NextRound(35, Vars(0xa9a7738c, 0xfe604df5, 0x98e12507, 0x73b33bf5, 0x085f3833, 0x59249dd3, 0x9cd9f5f6, 0xba591112),
              0x53380d13, 0xf10a5c62, 0x65a0cfe4, 0xf4b002d6);
    NextRound(36, Vars(0x65a0cfe4, 0xa9a7738c, 0xfe604df5, 0x98e12507, 0xf4b002d6, 0x085f3833, 0x59249dd3, 0x9cd9f5f6),
              0x650a7354, 0x0a8b3996, 0x41a65cb1, 0x0772a26b);
    NextRound(37, Vars(0x41a65cb1, 0x65a0cfe4, 0xa9a7738c, 0xfe604df5, 0x0772a26b, 0xf4b002d6, 0x085f3833, 0x59249dd3),
              0x766a0abb, 0x72af830a, 0x34df1604, 0xa507a53d);
    NextRound(38, Vars(0x34df1604, 0x41a65cb1, 0x65a0cfe4, 0xa9a7738c, 0xa507a53d, 0x0772a26b, 0xf4b002d6, 0x085f3833),
              0x81c2c92e, 0x9409e33e, 0x6dc57a8a, 0xf0781bc8);
    NextRound(39, Vars(0x6dc57a8a, 0x34df1604, 0x41a65cb1, 0x65a0cfe4, 0xf0781bc8, 0xa507a53d, 0x0772a26b, 0xf4b002d6),
              0x92722c85, 0x24641522, 0x79ea687a, 0x1efbc0a0);
  }

  lemma Rounds40()
    ensures Before(48,
                   Vars(0x4172328d, 0xa14c14b0, 0x72ab4b91, 0x26628815, 0xfecf0bc6, 0xd57b94a9, 0xb7755da1, 0xa80f11f0))
  {
    hide Before, IsWord, IsConstant, Schedule;
    Constants40();
    Words40();
    Rounds32();
    NextRound(40, Vars(0x79ea687a, 0x6dc57a8a, 0x34df1604, 0x41a65cb1, 0x1efbc0a0, 0xf0781bc8, 0xa507a53d, 0x0772a26b),
              0xa2bfe8a1, 0x9f47bf94, 0xd6670766, 0x26352d63);
    NextRound(41, Vars(0xd6670766, 0x79ea687a, 0x6dc57a8a, 0x34df1604, 0x26352d63, 0x1efbc0a0, 0xf0781bc8, 0xa507a53d),
              0xa81a664b, 0xf0a64f5a, 0xdf46652f, 0x838b2711);
    NextRound(42, Vars(0xdf46652f, 0xd6670766, 0x79ea687a, 0x6dc57a8a, 0x838b2711, 0x26352d63, 0x1efbc0a0, 0xf0781bc8),
              0xc24b8b70, 0x3e246a79, 0x17aa0dfe, 0xdecd4715);
    NextRound(43, Vars(0x17aa0dfe, 0xdf46652f, 0xd6670766, 0x79ea687a, 0xdecd4715, 0x838b2711, 0x26352d63, 0x1efbc0a0),
              0xc76c51a3, 0x27333ba3, 0x9d4baf93, 0xfda24c2e);
    NextRound(44, Vars(0x9d4baf93, 0x17aa0dfe, 0xdf46652f, 0xd6670766, 0xfda24c2e, 0xdecd4715, 0x838b2711, 0x26352d63),
              0xd192e819, 0x0c4763f2, 0x26628815, 0xa80f11f0);
    NextRound(45, Vars(0x26628815, 0x9d4baf93, 0x17aa0dfe, 0xdf46652f, 0xa80f11f0, 0xfda24c2e, 0xdecd4715, 0x838b2711),
              0xd6990624, 0x840abf27, 0x72ab4b91, 0xb7755da1);
    NextRound(46, Vars(0x72ab4b91, 0x26628815, 0x9d4baf93, 0x17aa0dfe, 0xb7755da1, 0xa80f11f0, 0xfda24c2e, 0xdecd4715),
              0xf40e3585, 0x7a290d5d, 0xa14c14b0, 0xd57b94a9);
    NextRound(47, Vars(0xa14c14b0, 0x72ab4b91, 0x26628815, 0x9d4baf93, 0xd57b94a9, 0xb7755da1, 0xa80f11f0, 0xfda24c2e),
              0x106aa070, 0x065c43da, 0x4172328d, 0xfecf0bc6);
  }

  lemma Rounds48()
    ensures Before(56,
                   Vars(0x38cc9913, 0x3ec45cdb, 0xf5702fdb, 0x101fd28f, 0x54cb266b, 0xe50e1b4f, 0x9f4787c3, 0x529e7d00))
  {
    hide Before, IsWord, IsConstant, Schedule;
    Constants48();
    Words48();
    Rounds40();
    NextRound(48, Vars(0x4172328d, 0xa14c14b0, 0x72ab4b91, 0x26628815, 0xfecf0bc6, 0xd57b94a9, 0xb7755da1, 0xa80f11f0),
              0x19a4c116, 0xfb3e89cb, 0x05757ceb, 0xbd714038);
    NextRound(49, Vars(0x05757ceb, 0x4172328d, 0xa14c14b0, 0x72ab4b91, 0xbd714038, 0xfecf0bc6, 0xd57b94a9, 0xb7755da1),
              0x1e376c08, 0xcc7617db, 0xf11bfaa8, 0x6e5c390c);
    NextRound(50, Vars(0xf11bfaa8, 0x05757ceb, 0x4172328d, 0xa14c14b0, 0x6e5c390c, 0xbd714038, 0xfecf0bc6, 0xd57b94a9),
              0x2748774c, 0xb9e66c34, 0x7a0508a1, 0x52f1ccf7);
    NextRound(51, Vars(0x7a0508a1, 0xf11bfaa8, 0x05757ceb, 0x4172328d, 0x52f1ccf7, 0x6e5c390c, 0xbd714038, 0xfecf0bc6),
              0x34b0bcb5, 0xa9993667, 0x886e7a22, 0x49231c1e);
    NextRound(52, Vars(0x886e7a22, 0x7a0508a1, 0xf11bfaa8, 0x05757ceb, 0x49231c1e, 0x52f1ccf7, 0x6e5c390c, 0xbd714038),
              0x391c0cb3, 0x84badedd, 0x101fd28f, 0x529e7d00);
    NextRound(53, Vars(0x101fd28f, 0x886e7a22, 0x7a0508a1, 0xf11bfaa8, 0x529e7d00, 0x49231c1e, 0x52f1ccf7, 0x6e5c390c),
              0x4ed8aa4a, 0xc21462bc, 0xf5702fdb, 0x9f4787c3);
    NextRound(54, Vars(0xf5702fdb, 0x101fd28f, 0x886e7a22, 0x7a0508a1, 0x9f4787c3, 0x529e7d00, 0x49231c1e, 0x52f1ccf7),
              0x5b9cca4f, 0x1487472c, 0x3ec45cdb, 0xe50e1b4f);
    NextRound(55, Vars(0x3ec45cdb, 0xf5702fdb, 0x101fd28f, 0x886e7a22, 0xe50e1b4f, 0x9f4787c3, 0x529e7d00, 0x49231c1e),
              0x682e6ff3, 0xb20f7a99, 0x38cc9913, 0x54cb266b);
  }

  lemma Rounds56()
    ensures Before(64,
                   Vars(0x506e3058, 0xd39a2165, 0x04d24d6c, 0xb85e2ce9, 0x5ef50f24, 0xfb121210, 0x948d25b6, 0x961f4894))
  {
    hide Before, IsWord, IsConstant, Schedule;
    Constants56();
    Words56();
    Rounds48();
    NextRound(56, Vars(0x38cc9913, 0x3ec45cdb, 0xf5702fdb, 0x101fd28f, 0x54cb266b, 0xe50e1b4f, 0x9f4787c3, 0x529e7d00),
              0x748f82ee, 0xef57b9cd, 0xfcd1887b, 0x9b5e906c);
    NextRound(57, Vars(0xfcd1887b, 0x38cc9913, 0x3ec45cdb, 0xf5702fdb, 0x9b5e906c, 0x54cb266b, 0xe50e1b4f, 0x9f4787c3),
              0x78a5636f, 0xebe6b238, 0xc062d46f, 0x7e44008e);
    NextRound(58, Vars(0xc062d46f, 0xfcd1887b, 0x38cc9913, 0x3ec45cdb, 0x7e44008e, 0x9b5e906c, 0x54cb266b, 0xe50e1b4f),
              0x84c87814, 0x9fe3095e, 0xffb70472, 0x6d83bfc6);
    NextRound(59, Vars(0xffb70472, 0xc062d46f, 0xfcd1887b, 0x38cc9913, 0x6d83bfc6, 0x7e44008e, 0x9b5e906c, 0x54cb266b),
              0x8cc70208, 0x78bc8d4b, 0xb6ae8fff, 0xb21bad3d);
    NextRound(60, Vars(0xb6ae8fff, 0xffb70472, 0xc062d46f, 0xfcd1887b, 0xb21bad3d, 0x6d83bfc6, 0x7e44008e, 0x9b5e906c),
              0x90befffa, 0xa43fcf15, 0xb85e2ce9, 0x961f4894);
    NextRound(61, Vars(0xb85e2ce9, 0xb6ae8fff, 0xffb70472, 0xc062d46f, 0x961f4894, 0xb21bad3d, 0x6d83bfc6, 0x7e44008e),
              0xa4506ceb, 0x668b2ff8, 0x04d24d6c, 0x948d25b6);
    NextRound(62, Vars(0x04d24d6c, 0xb85e2ce9, 0xb6ae8fff, 0xffb70472, 0x948d25b6, 0x961f4894, 0xb21bad3d, 0x6d83bfc6),
              0xbef9a3f7, 0xeeaba2cc, 0xd39a2165, 0xfb121210);
    NextRound(63, Vars(0xd39a2165, 0x04d24d6c, 0xb85e2ce9, 0xb6ae8fff, 0xfb121210, 0x948d25b6, 0x961f4894, 0xb21bad3d),
              0xc67178f2, 0x12b1edeb, 0x506e3058, 0x5ef50f24);
  }

  // ---------------------------------------------------------------- the digest

  const DIGEST: Bytes :=
    [0xba, 0x78, 0x16, 0xbf] + [0x8f, 0x01, 0xcf, 0xea] + [0x41, 0x41, 0x40, 0xde] + [0x5d, 0xae, 0x22, 0x23] +
    [0xb0, 0x03, 0x61, 0xa3] + [0x96, 0x17, 0x7a, 0x9c] + [0xb4, 0x10, 0xff, 0x61] + [0xf2, 0x00, 0x15, 0xad]

  lemma AllRounds()
    ensures Compressed(Initial(), Block()) == HASH
  {
    hide Rounds, Block;
    Rounds56();
    assert Rounds(Initial(), Block(), 64) ==
             Vars(0x506e3058, 0xd39a2165, 0x04d24d6c, 0xb85e2ce9, 0x5ef50f24, 0xfb121210, 0x948d25b6, 0x961f4894);
  }

  lemma PaddedAbc()
    ensures Padded(ABC) == Block() && |Padded(ABC)| / 64 == 1
  {
  }

  predicate WordIsBytes(w: bv32, b: Bytes) { Word(WordValue(w)) == b }

  predicate HasOctets(w: bv32, a: Byte, b: Byte, c: Byte, d: Byte)
  {
    LowByte(w >> 24) == a && LowByte(w >> 16) == b && LowByte(w >> 8) == c && LowByte(w) == d
  }

  lemma OctetsAreBytes(w: bv32, a: Byte, b: Byte, c: Byte, d: Byte)
    requires HasOctets(w, a, b, c, d)
    ensures WordIsBytes(w, [a, b, c, d])
  {
    hide WordValue, FromOctets;
    ValueOfOctets(w);
    Octets(a, b, c, d);
  }

  lemma ValueOfOctets(w: bv32)
    ensures WordValue(w) == FromOctets(LowByte(w >> 24), LowByte(w >> 16), LowByte(w >> 8), LowByte(w))
  {
    hide LowByte;
  }

  lemma DigestOctets()
    ensures HasOctets(0xba7816bf, 0xba, 0x78, 0x16, 0xbf)
    ensures HasOctets(0x8f01cfea, 0x8f, 0x01, 0xcf, 0xea)
    ensures HasOctets(0x414140de, 0x41, 0x41, 0x40, 0xde)
    ensures HasOctets(0x5dae2223, 0x5d, 0xae, 0x22, 0x23)
    ensures HasOctets(0xb00361a3, 0xb0, 0x03, 0x61, 0xa3)
    ensures HasOctets(0x96177a9c, 0x96, 0x17, 0x7a, 0x9c)
    ensures HasOctets(0xb410ff61, 0xb4, 0x10, 0xff, 0x61)
    ensures HasOctets(0xf20015ad, 0xf2, 0x00, 0x15, 0xad)
  {
  }

  lemma DigestWords()
    ensures WordIsBytes(0xba7816bf, [0xba, 0x78, 0x16, 0xbf])
    ensures WordIsBytes(0x8f01cfea, [0x8f, 0x01, 0xcf, 0xea])
    ensures WordIsBytes(0x414140de, [0x41, 0x41, 0x40, 0xde])
    ensures WordIsBytes(0x5dae2223, [0x5d, 0xae, 0x22, 0x23])
    ensures WordIsBytes(0xb00361a3, [0xb0, 0x03, 0x61, 0xa3])
    ensures WordIsBytes(0x96177a9c, [0x96, 0x17, 0x7a, 0x9c])
    ensures WordIsBytes(0xb410ff61, [0xb4, 0x10, 0xff, 0x61])
    ensures WordIsBytes(0xf20015ad, [0xf2, 0x00, 0x15, 0xad])
  {
    hide HasOctets, WordIsBytes;
    DigestOctets();
    OctetsAreBytes(0xba7816bf, 0xba, 0x78, 0x16, 0xbf);
    OctetsAreBytes(0x8f01cfea, 0x8f, 0x01, 0xcf, 0xea);
    OctetsAreBytes(0x414140de, 0x41, 0x41, 0x40, 0xde);
    OctetsAreBytes(0x5dae2223, 0x5d, 0xae, 0x22, 0x23);
    OctetsAreBytes(0xb00361a3, 0xb0, 0x03, 0x61, 0xa3);
    OctetsAreBytes(0x96177a9c, 0x96, 0x17, 0x7a, 0x9c);
    OctetsAreBytes(0xb410ff61, 0xb4, 0x10, 0xff, 0x61);
    OctetsAreBytes(0xf20015ad, 0xf2, 0x00, 0x15, 0xad);
  }

  lemma {:induction false} WordBytesAppend(words: seq<bv32>, w: bv32, b: Bytes)
    requires WordIsBytes(w, b)
    ensures WordBytes(words + [w]) == WordBytes(words) + b
  {
    hide WordValue, Word;
    assert (words + [w])[..|words|] == words;
  }

  lemma FourWords(front: seq<bv32>, w: seq<bv32>, b: seq<Bytes>)
    requires |w| == 4 == |b| && forall i :: 0 <= i < 4 ==> WordIsBytes(w[i], b[i])
    ensures WordBytes(front + w) == WordBytes(front) + b[0] + b[1] + b[2] + b[3]
  {
    hide WordIsBytes, WordBytes;
    WordBytesAppend(front, w[0], b[0]);
    WordBytesAppend(front + w[..1], w[1], b[1]);
    WordBytesAppend(front + w[..2], w[2], b[2]);
    WordBytesAppend(front + w[..3], w[3], b[3]);
    assert front + w[..1] == front + [w[0]] && front + w[..1] + [w[1]] == front + w[..2];
    assert front + w[..2] + [w[2]] == front + w[..3] && front + w[..3] + [w[3]] == front + w;
  }

  const HASH: Vars :=
    Vars(0xba7816bf, 0x8f01cfea, 0x414140de, 0x5dae2223, 0xb00361a3, 0x96177a9c, 0xb410ff61, 0xf20015ad)

  lemma DigestOf()
    ensures DigestBytes(HASH) == DIGEST
  {
    hide WordIsBytes, WordBytes;
    DigestWords();
    NoWordBytes();
    var front: seq<bv32> := [0xba7816bf, 0x8f01cfea, 0x414140de, 0x5dae2223];
    var back: seq<bv32> := [0xb00361a3, 0x96177a9c, 0xb410ff61, 0xf20015ad];
    FourWords([], front,
              [[0xba, 0x78, 0x16, 0xbf], [0x8f, 0x01, 0xcf, 0xea], [0x41, 0x41, 0x40, 0xde], [0x5d, 0xae, 0x22, 0x23]]);
    FourWords(front, back,
              [[0xb0, 0x03, 0x61, 0xa3], [0x96, 0x17, 0x7a, 0x9c], [0xb4, 0x10, 0xff, 0x61], [0xf2, 0x00, 0x15, 0xad]]);
    assert [] + front == front;
    HashWords(front, back);
  }

  lemma HashWords(front: seq<bv32>, back: seq<bv32>)
    requires front == [0xba7816bf, 0x8f01cfea, 0x414140de, 0x5dae2223]
    requires back == [0xb00361a3, 0x96177a9c, 0xb410ff61, 0xf20015ad]
    ensures DigestBytes(HASH) == WordBytes(front + back)
  {
    hide WordBytes;
    assert [HASH.a, HASH.b, HASH.c, HASH.d, HASH.e, HASH.f, HASH.g, HASH.h] == front + back;
  }

  lemma NoWordBytes()
    ensures WordBytes([]) == []
  {
  }

  /** The digest of "abc". */
  lemma DigestOfAbc()
    ensures Sha256Standard.Sha256(ABC) == DIGEST
  {
    hide Block, Compressed, DigestBytes;
    PaddedAbc();
    AllRounds();
    DigestOf();
    assert Padded(ABC)[0..64] == Block();
    assert Hashed(Initial(), Padded(ABC), 1) == Compressed(Hashed(Initial(), Padded(ABC), 0), Padded(ABC)[0..64]);
  }
}
