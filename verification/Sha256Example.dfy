/**
 The one-block example of FIPS 180: the message "abc", word by word and round by round.

 The words of the schedule and the working variables after each round are those that the standard
 publishes with it, and so is the digest at the end.
 */
module Sha256Example {
  import opened Bytes
  import opened Sha256
  import opened WordBits

  const ABC: seq<Byte> := [0x61, 0x62, 0x63]

  /** The message of three bytes, padded to one block: a 1 bit, zeros, and the length 24. */
  const BLOCK: seq<Byte> := ABC + [0x80] + Zeros(59) + [24]

  lemma BlockOfAbc()
    ensures ABC + Padding(3) == BLOCK && |BLOCK| == 64
  {
    assert BigEndian(24, 8) == BigEndian(0, 7) + [24];
    ZeroBytes(7);
  }

  lemma {:induction false} ZeroBytes(width: nat)
    ensures BigEndian(0, width) == Zeros(width)
  {
    if width > 0 {
      ZeroBytes(width - 1);
    }
  }

  lemma WordsOfBlock()
    ensures BigEndianWord(0x61, 0x62, 0x63, 0x80) == 0x61626380 && BigEndianWord(0, 0, 0, 0) == 0 && BigEndianWord(0, 0, 0, 24) == 24
  {
  }

  ghost function ScheduleOfAbc(t: nat): Word
    requires t < 64
  {
    BlockOfAbc();
    Schedule(BLOCK, t)
  }

  lemma FirstWord(t: nat)
    requires t < 16
    ensures ScheduleOfAbc(t) == if t == 0 then 0x61626380 else if t == 15 then 24 else 0
  {
    var b := BLOCK;
    BlockOfAbc();
    assert b[0] == 0x61 && b[1] == 0x62 && b[2] == 0x63 && b[3] == 0x80 && b[63] == 24;
    assert forall k :: 4 <= k < 63 ==> b[k] == 0;
    WordsOfBlock();
  }

  lemma NextWord(t: nat, w2: Word, w7: Word, w15: Word, w16: Word)
    requires 16 <= t < 64 && ScheduleOfAbc(t - 2) == w2 && ScheduleOfAbc(t - 7) == w7
    requires ScheduleOfAbc(t - 15) == w15 && ScheduleOfAbc(t - 16) == w16
    ensures ScheduleOfAbc(t) == Extend(w2, w7, w15, w16)
  {
  }

  ghost function RoundsOfAbc(t: nat): Words
    requires t <= 64
  {
    BlockOfAbc();
    KSize();
    Rounds(INITIAL, K, BLOCK, t)
  }

  lemma NextRound(t: nat, v: Words, w: Word)
    requires t < 64 && RoundsOfAbc(t) == v && ScheduleOfAbc(t) == w
    ensures |K| == 64 && RoundsOfAbc(t + 1) == Round(v, K[t], w)
  {
    KSize();
  }

  // Each word of the schedule, and each round.

  lemma WordsFrom0()
    ensures ScheduleOfAbc(0) == 0x61626380 && ScheduleOfAbc(1) == 0x00000000
    ensures ScheduleOfAbc(2) == 0x00000000 && ScheduleOfAbc(3) == 0x00000000
    ensures ScheduleOfAbc(4) == 0x00000000 && ScheduleOfAbc(5) == 0x00000000
    ensures ScheduleOfAbc(6) == 0x00000000 && ScheduleOfAbc(7) == 0x00000000
    ensures ScheduleOfAbc(8) == 0x00000000 && ScheduleOfAbc(9) == 0x00000000
    ensures ScheduleOfAbc(10) == 0x00000000 && ScheduleOfAbc(11) == 0x00000000
    ensures ScheduleOfAbc(12) == 0x00000000 && ScheduleOfAbc(13) == 0x00000000
    ensures ScheduleOfAbc(14) == 0x00000000 && ScheduleOfAbc(15) == 0x00000018
  {
    hide ScheduleOfAbc;
    FirstWord(0);
    FirstWord(1);
    FirstWord(2);
    FirstWord(3);
    FirstWord(4);
    FirstWord(5);
    FirstWord(6);
    FirstWord(7);
    FirstWord(8);
    FirstWord(9);
    FirstWord(10);
    FirstWord(11);
    FirstWord(12);
    FirstWord(13);
    FirstWord(14);
    FirstWord(15);
  }

  lemma WordsFrom16()
    ensures ScheduleOfAbc(16) == 0x61626380 && ScheduleOfAbc(17) == 0x000f0000
    ensures ScheduleOfAbc(18) == 0x7da86405 && ScheduleOfAbc(19) == 0x600003c6
    ensures ScheduleOfAbc(20) == 0x3e9d7b78 && ScheduleOfAbc(21) == 0x0183fc00
    ensures ScheduleOfAbc(22) == 0x12dcbfdb && ScheduleOfAbc(23) == 0xe2e2c38e
  {
    hide ScheduleOfAbc;
    WordsFrom0();
    NextWord(16, 0x00000000, 0x00000000, 0x00000000, 0x61626380);
    NextWord(17, 0x00000018, 0x00000000, 0x00000000, 0x00000000);
    NextWord(18, 0x61626380, 0x00000000, 0x00000000, 0x00000000);
    NextWord(19, 0x000f0000, 0x00000000, 0x00000000, 0x00000000);
    NextWord(20, 0x7da86405, 0x00000000, 0x00000000, 0x00000000);
    NextWord(21, 0x600003c6, 0x00000000, 0x00000000, 0x00000000);
    NextWord(22, 0x3e9d7b78, 0x00000018, 0x00000000, 0x00000000);
    NextWord(23, 0x0183fc00, 0x61626380, 0x00000000, 0x00000000);
  }

  lemma WordsFrom24()
    ensures ScheduleOfAbc(24) == 0xc8215c1a && ScheduleOfAbc(25) == 0xb73679a2
    ensures ScheduleOfAbc(26) == 0xe5bc3909 && ScheduleOfAbc(27) == 0x32663c5b
    ensures ScheduleOfAbc(28) == 0x9d209d67 && ScheduleOfAbc(29) == 0xec8726cb
    ensures ScheduleOfAbc(30) == 0x702138a4 && ScheduleOfAbc(31) == 0xd3b7973b
  {
    hide ScheduleOfAbc;
    WordsFrom0();
    WordsFrom16();
    NextWord(24, 0x12dcbfdb, 0x000f0000, 0x00000000, 0x00000000);
    NextWord(25, 0xe2e2c38e, 0x7da86405, 0x00000000, 0x00000000);
    NextWord(26, 0xc8215c1a, 0x600003c6, 0x00000000, 0x00000000);
    NextWord(27, 0xb73679a2, 0x3e9d7b78, 0x00000000, 0x00000000);
    NextWord(28, 0xe5bc3909, 0x0183fc00, 0x00000000, 0x00000000);
    NextWord(29, 0x32663c5b, 0x12dcbfdb, 0x00000000, 0x00000000);
    NextWord(30, 0x9d209d67, 0xe2e2c38e, 0x00000018, 0x00000000);
    NextWord(31, 0xec8726cb, 0xc8215c1a, 0x61626380, 0x00000018);
  }

  lemma WordsFrom32()
    ensures ScheduleOfAbc(32) == 0x93f5997f && ScheduleOfAbc(33) == 0x3b68ba73
    ensures ScheduleOfAbc(34) == 0xaff4ffc1 && ScheduleOfAbc(35) == 0xf10a5c62
    ensures ScheduleOfAbc(36) == 0x0a8b3996 && ScheduleOfAbc(37) == 0x72af830a
    ensures ScheduleOfAbc(38) == 0x9409e33e && ScheduleOfAbc(39) == 0x24641522
  {
    hide ScheduleOfAbc;
    WordsFrom16();
    WordsFrom24();
    NextWord(32, 0x702138a4, 0xb73679a2, 0x000f0000, 0x61626380);
    NextWord(33, 0xd3b7973b, 0xe5bc3909, 0x7da86405, 0x000f0000);
    NextWord(34, 0x93f5997f, 0x32663c5b, 0x600003c6, 0x7da86405);
    NextWord(35, 0x3b68ba73, 0x9d209d67, 0x3e9d7b78, 0x600003c6);
    NextWord(36, 0xaff4ffc1, 0xec8726cb, 0x0183fc00, 0x3e9d7b78);
    NextWord(37, 0xf10a5c62, 0x702138a4, 0x12dcbfdb, 0x0183fc00);
    NextWord(38, 0x0a8b3996, 0xd3b7973b, 0xe2e2c38e, 0x12dcbfdb);
    NextWord(39, 0x72af830a, 0x93f5997f, 0xc8215c1a, 0xe2e2c38e);
  }

  lemma WordsFrom40()
    ensures ScheduleOfAbc(40) == 0x9f47bf94 && ScheduleOfAbc(41) == 0xf0a64f5a
    ensures ScheduleOfAbc(42) == 0x3e246a79 && ScheduleOfAbc(43) == 0x27333ba3
    ensures ScheduleOfAbc(44) == 0x0c4763f2 && ScheduleOfAbc(45) == 0x840abf27
    ensures ScheduleOfAbc(46) == 0x7a290d5d && ScheduleOfAbc(47) == 0x065c43da
  {
    hide ScheduleOfAbc;
    WordsFrom24();
    WordsFrom32();
    NextWord(40, 0x9409e33e, 0x3b68ba73, 0xb73679a2, 0xc8215c1a);
    NextWord(41, 0x24641522, 0xaff4ffc1, 0xe5bc3909, 0xb73679a2);
    NextWord(42, 0x9f47bf94, 0xf10a5c62, 0x32663c5b, 0xe5bc3909);
    NextWord(43, 0xf0a64f5a, 0x0a8b3996, 0x9d209d67, 0x32663c5b);
    NextWord(44, 0x3e246a79, 0x72af830a, 0xec8726cb, 0x9d209d67);
    NextWord(45, 0x27333ba3, 0x9409e33e, 0x702138a4, 0xec8726cb);
    NextWord(46, 0x0c4763f2, 0x24641522, 0xd3b7973b, 0x702138a4);
    NextWord(47, 0x840abf27, 0x9f47bf94, 0x93f5997f, 0xd3b7973b);
  }

  lemma WordsFrom48()
    ensures ScheduleOfAbc(48) == 0xfb3e89cb && ScheduleOfAbc(49) == 0xcc7617db
    ensures ScheduleOfAbc(50) == 0xb9e66c34 && ScheduleOfAbc(51) == 0xa9993667
    ensures ScheduleOfAbc(52) == 0x84badedd && ScheduleOfAbc(53) == 0xc21462bc
    ensures ScheduleOfAbc(54) == 0x1487472c && ScheduleOfAbc(55) == 0xb20f7a99
  {
    hide ScheduleOfAbc;
    WordsFrom32();
    WordsFrom40();
    NextWord(48, 0x7a290d5d, 0xf0a64f5a, 0x3b68ba73, 0x93f5997f);
    NextWord(49, 0x065c43da, 0x3e246a79, 0xaff4ffc1, 0x3b68ba73);
    NextWord(50, 0xfb3e89cb, 0x27333ba3, 0xf10a5c62, 0xaff4ffc1);
    NextWord(51, 0xcc7617db, 0x0c4763f2, 0x0a8b3996, 0xf10a5c62);
    NextWord(52, 0xb9e66c34, 0x840abf27, 0x72af830a, 0x0a8b3996);
    NextWord(53, 0xa9993667, 0x7a290d5d, 0x9409e33e, 0x72af830a);
    NextWord(54, 0x84badedd, 0x065c43da, 0x24641522, 0x9409e33e);
    NextWord(55, 0xc21462bc, 0xfb3e89cb, 0x9f47bf94, 0x24641522);
  }

  lemma WordsFrom56()
    ensures ScheduleOfAbc(56) == 0xef57b9cd && ScheduleOfAbc(57) == 0xebe6b238
    ensures ScheduleOfAbc(58) == 0x9fe3095e && ScheduleOfAbc(59) == 0x78bc8d4b
    ensures ScheduleOfAbc(60) == 0xa43fcf15 && ScheduleOfAbc(61) == 0x668b2ff8
    ensures ScheduleOfAbc(62) == 0xeeaba2cc && ScheduleOfAbc(63) == 0x12b1edeb
  {
    hide ScheduleOfAbc;
    WordsFrom40();
    WordsFrom48();
    NextWord(56, 0x1487472c, 0xcc7617db, 0xf0a64f5a, 0x9f47bf94);
    NextWord(57, 0xb20f7a99, 0xb9e66c34, 0x3e246a79, 0xf0a64f5a);
    NextWord(58, 0xef57b9cd, 0xa9993667, 0x27333ba3, 0x3e246a79);
    NextWord(59, 0xebe6b238, 0x84badedd, 0x0c4763f2, 0x27333ba3);
    NextWord(60, 0x9fe3095e, 0xc21462bc, 0x840abf27, 0x0c4763f2);
    NextWord(61, 0x78bc8d4b, 0x1487472c, 0x7a290d5d, 0x840abf27);
    NextWord(62, 0xa43fcf15, 0xb20f7a99, 0x065c43da, 0x7a290d5d);
    NextWord(63, 0x668b2ff8, 0xef57b9cd, 0xfb3e89cb, 0x065c43da);
  }

  lemma ConstantsFrom0()
    ensures K[0] == 0x428a2f98 && K[1] == 0x71374491 && K[2] == 0xb5c0fbcf && K[3] == 0xe9b5dba5
    ensures K[4] == 0x3956c25b && K[5] == 0x59f111f1 && K[6] == 0x923f82a4 && K[7] == 0xab1c5ed5
  {
  }

  lemma ConstantsFrom8()
    ensures K[8] == 0xd807aa98 && K[9] == 0x12835b01 && K[10] == 0x243185be && K[11] == 0x550c7dc3
    ensures K[12] == 0x72be5d74 && K[13] == 0x80deb1fe && K[14] == 0x9bdc06a7 && K[15] == 0xc19bf174
  {
  }

  lemma ConstantsFrom16()
    ensures K[16] == 0xe49b69c1 && K[17] == 0xefbe4786 && K[18] == 0x0fc19dc6 && K[19] == 0x240ca1cc
    ensures K[20] == 0x2de92c6f && K[21] == 0x4a7484aa && K[22] == 0x5cb0a9dc && K[23] == 0x76f988da
  {
  }

  lemma ConstantsFrom24()
    ensures K[24] == 0x983e5152 && K[25] == 0xa831c66d && K[26] == 0xb00327c8 && K[27] == 0xbf597fc7
    ensures K[28] == 0xc6e00bf3 && K[29] == 0xd5a79147 && K[30] == 0x06ca6351 && K[31] == 0x14292967
  {
  }

  lemma ConstantsFrom32()
    ensures K[32] == 0x27b70a85 && K[33] == 0x2e1b2138 && K[34] == 0x4d2c6dfc && K[35] == 0x53380d13
    ensures K[36] == 0x650a7354 && K[37] == 0x766a0abb && K[38] == 0x81c2c92e && K[39] == 0x92722c85
  {
  }

  lemma ConstantsFrom40()
    ensures K[40] == 0xa2bfe8a1 && K[41] == 0xa81a664b && K[42] == 0xc24b8b70 && K[43] == 0xc76c51a3
    ensures K[44] == 0xd192e819 && K[45] == 0xd6990624 && K[46] == 0xf40e3585 && K[47] == 0x106aa070
  {
  }

  lemma ConstantsFrom48()
    ensures K[48] == 0x19a4c116 && K[49] == 0x1e376c08 && K[50] == 0x2748774c && K[51] == 0x34b0bcb5
    ensures K[52] == 0x391c0cb3 && K[53] == 0x4ed8aa4a && K[54] == 0x5b9cca4f && K[55] == 0x682e6ff3
  {
  }

  lemma ConstantsFrom56()
    ensures K[56] == 0x748f82ee && K[57] == 0x78a5636f && K[58] == 0x84c87814 && K[59] == 0x8cc70208
    ensures K[60] == 0x90befffa && K[61] == 0xa4506ceb && K[62] == 0xbef9a3f7 && K[63] == 0xc67178f2
  {
  }

  lemma RoundsFrom0()
    ensures RoundsOfAbc(4) == Words(0xd550f666, 0xc8c347a7, 0x5a6ad9ad, 0x5d6aebcd, 0x24e00850, 0xf92939eb, 0x78ce7989, 0xfa2a4622)
  {
    hide ScheduleOfAbc, RoundsOfAbc;
    StartOfRounds();
    WordsFrom0();
    ConstantsFrom0();
    NextRound(0, Words(0x6a09e667, 0xbb67ae85, 0x3c6ef372, 0xa54ff53a, 0x510e527f, 0x9b05688c, 0x1f83d9ab, 0x5be0cd19), 0x61626380);
    NextRound(1, Words(0x5d6aebcd, 0x6a09e667, 0xbb67ae85, 0x3c6ef372, 0xfa2a4622, 0x510e527f, 0x9b05688c, 0x1f83d9ab), 0x00000000);
    NextRound(2, Words(0x5a6ad9ad, 0x5d6aebcd, 0x6a09e667, 0xbb67ae85, 0x78ce7989, 0xfa2a4622, 0x510e527f, 0x9b05688c), 0x00000000);
    NextRound(3, Words(0xc8c347a7, 0x5a6ad9ad, 0x5d6aebcd, 0x6a09e667, 0xf92939eb, 0x78ce7989, 0xfa2a4622, 0x510e527f), 0x00000000);
  }

  lemma RoundsFrom4()
    ensures RoundsOfAbc(8) == Words(0x85a07b5f, 0xe5030380, 0x2b4209f5, 0x04409a6a, 0x0c657a79, 0x9b27a401, 0x714260ad, 0x43ada245)
  {
    hide ScheduleOfAbc, RoundsOfAbc;
    RoundsFrom0();
    WordsFrom0();
    ConstantsFrom0();
    NextRound(4, Words(0xd550f666, 0xc8c347a7, 0x5a6ad9ad, 0x5d6aebcd, 0x24e00850, 0xf92939eb, 0x78ce7989, 0xfa2a4622), 0x00000000);
    NextRound(5, Words(0x04409a6a, 0xd550f666, 0xc8c347a7, 0x5a6ad9ad, 0x43ada245, 0x24e00850, 0xf92939eb, 0x78ce7989), 0x00000000);
    NextRound(6, Words(0x2b4209f5, 0x04409a6a, 0xd550f666, 0xc8c347a7, 0x714260ad, 0x43ada245, 0x24e00850, 0xf92939eb), 0x00000000);
    NextRound(7, Words(0xe5030380, 0x2b4209f5, 0x04409a6a, 0xd550f666, 0x9b27a401, 0x714260ad, 0x43ada245, 0x24e00850), 0x00000000);
  }

  lemma RoundsFrom8()
    ensures RoundsOfAbc(12) == Words(0xf71fc5a9, 0x4798a3f4, 0x8c87346b, 0x8e04ecb9, 0x816fd6e9, 0x436b23e8, 0x1cc92596, 0x32ca2d8c)
  {
    hide ScheduleOfAbc, RoundsOfAbc;
    RoundsFrom4();
    WordsFrom0();
    ConstantsFrom8();
    NextRound(8, Words(0x85a07b5f, 0xe5030380, 0x2b4209f5, 0x04409a6a, 0x0c657a79, 0x9b27a401, 0x714260ad, 0x43ada245), 0x00000000);
    NextRound(9, Words(0x8e04ecb9, 0x85a07b5f, 0xe5030380, 0x2b4209f5, 0x32ca2d8c, 0x0c657a79, 0x9b27a401, 0x714260ad), 0x00000000);
    NextRound(10, Words(0x8c87346b, 0x8e04ecb9, 0x85a07b5f, 0xe5030380, 0x1cc92596, 0x32ca2d8c, 0x0c657a79, 0x9b27a401), 0x00000000);
    NextRound(11, Words(0x4798a3f4, 0x8c87346b, 0x8e04ecb9, 0x85a07b5f, 0x436b23e8, 0x1cc92596, 0x32ca2d8c, 0x0c657a79), 0x00000000);
  }

  lemma RoundsFrom12()
    ensures RoundsOfAbc(16) == Words(0xb0fa238e, 0xc0645fde, 0xd932eb16, 0x87912990, 0x07590dcd, 0x0b92f20c, 0x745a48de, 0x1e578218)
  {
    hide ScheduleOfAbc, RoundsOfAbc;
    RoundsFrom8();
    WordsFrom0();
    ConstantsFrom8();
    NextRound(12, Words(0xf71fc5a9, 0x4798a3f4, 0x8c87346b, 0x8e04ecb9, 0x816fd6e9, 0x436b23e8, 0x1cc92596, 0x32ca2d8c), 0x00000000);
    NextRound(13, Words(0x87912990, 0xf71fc5a9, 0x4798a3f4, 0x8c87346b, 0x1e578218, 0x816fd6e9, 0x436b23e8, 0x1cc92596), 0x00000000);
    NextRound(14, Words(0xd932eb16, 0x87912990, 0xf71fc5a9, 0x4798a3f4, 0x745a48de, 0x1e578218, 0x816fd6e9, 0x436b23e8), 0x00000000);
    NextRound(15, Words(0xc0645fde, 0xd932eb16, 0x87912990, 0xf71fc5a9, 0x0b92f20c, 0x745a48de, 0x1e578218, 0x816fd6e9), 0x00000018);
  }

  lemma RoundsFrom16()
    ensures RoundsOfAbc(20) == Words(0xe1f20c33, 0xfe777bbf, 0xc2fbd9d1, 0x21da9a9b, 0xb0638179, 0xcc899961, 0x846ee454, 0x8034229c)
  {
    hide ScheduleOfAbc, RoundsOfAbc;
    RoundsFrom12();
    WordsFrom16();
    ConstantsFrom16();
    NextRound(16, Words(0xb0fa238e, 0xc0645fde, 0xd932eb16, 0x87912990, 0x07590dcd, 0x0b92f20c, 0x745a48de, 0x1e578218), 0x61626380);
    NextRound(17, Words(0x21da9a9b, 0xb0fa238e, 0xc0645fde, 0xd932eb16, 0x8034229c, 0x07590dcd, 0x0b92f20c, 0x745a48de), 0x000f0000);
    NextRound(18, Words(0xc2fbd9d1, 0x21da9a9b, 0xb0fa238e, 0xc0645fde, 0x846ee454, 0x8034229c, 0x07590dcd, 0x0b92f20c), 0x7da86405);
    NextRound(19, Words(0xfe777bbf, 0xc2fbd9d1, 0x21da9a9b, 0xb0fa238e, 0xcc899961, 0x846ee454, 0x8034229c, 0x07590dcd), 0x600003c6);
  }

  lemma RoundsFrom20()
    ensures RoundsOfAbc(24) == Words(0xc5d53d8d, 0xa7a3623f, 0xc2606d6d, 0x9dc68b63, 0xaa47c347, 0x49f5114a, 0xe1257970, 0x8ada8930)
  {
    hide ScheduleOfAbc, RoundsOfAbc;
    RoundsFrom16();
    WordsFrom16();
    ConstantsFrom16();
    NextRound(20, Words(0xe1f20c33, 0xfe777bbf, 0xc2fbd9d1, 0x21da9a9b, 0xb0638179, 0xcc899961, 0x846ee454, 0x8034229c), 0x3e9d7b78);
    NextRound(21, Words(0x9dc68b63, 0xe1f20c33, 0xfe777bbf, 0xc2fbd9d1, 0x8ada8930, 0xb0638179, 0xcc899961, 0x846ee454), 0x0183fc00);
    NextRound(22, Words(0xc2606d6d, 0x9dc68b63, 0xe1f20c33, 0xfe777bbf, 0xe1257970, 0x8ada8930, 0xb0638179, 0xcc899961), 0x12dcbfdb);
    NextRound(23, Words(0xa7a3623f, 0xc2606d6d, 0x9dc68b63, 0xe1f20c33, 0x49f5114a, 0xe1257970, 0x8ada8930, 0xb0638179), 0xe2e2c38e);
  }

  lemma RoundsFrom24()
    ensures RoundsOfAbc(28) == Words(0x77d37528, 0xb62ec4bc, 0xcde8037d, 0x1c2c2838, 0xedffbff8, 0xc74c6516, 0x14383d8e, 0x2823ef91)
  {
    hide ScheduleOfAbc, RoundsOfAbc;
    RoundsFrom20();
    WordsFrom24();
    ConstantsFrom24();
    NextRound(24, Words(0xc5d53d8d, 0xa7a3623f, 0xc2606d6d, 0x9dc68b63, 0xaa47c347, 0x49f5114a, 0xe1257970, 0x8ada8930), 0xc8215c1a);
    NextRound(25, Words(0x1c2c2838, 0xc5d53d8d, 0xa7a3623f, 0xc2606d6d, 0x2823ef91, 0xaa47c347, 0x49f5114a, 0xe1257970), 0xb73679a2);
    NextRound(26, Words(0xcde8037d, 0x1c2c2838, 0xc5d53d8d, 0xa7a3623f, 0x14383d8e, 0x2823ef91, 0xaa47c347, 0x49f5114a), 0xe5bc3909);
    NextRound(27, Words(0xb62ec4bc, 0xcde8037d, 0x1c2c2838, 0xc5d53d8d, 0xc74c6516, 0x14383d8e, 0x2823ef91, 0xaa47c347), 0x32663c5b);
  }

  lemma RoundsFrom28()
    ensures RoundsOfAbc(32) == Words(0x73b33bf5, 0xea992a22, 0xa0060b30, 0x363482c9, 0xba591112, 0x0109ab3a, 0xade79437, 0x6112a3b7)
  {
    hide ScheduleOfAbc, RoundsOfAbc;
    RoundsFrom24();
    WordsFrom24();
    ConstantsFrom24();
    NextRound(28, Words(0x77d37528, 0xb62ec4bc, 0xcde8037d, 0x1c2c2838, 0xedffbff8, 0xc74c6516, 0x14383d8e, 0x2823ef91), 0x9d209d67);
    NextRound(29, Words(0x363482c9, 0x77d37528, 0xb62ec4bc, 0xcde8037d, 0x6112a3b7, 0xedffbff8, 0xc74c6516, 0x14383d8e), 0xec8726cb);
    NextRound(30, Words(0xa0060b30, 0x363482c9, 0x77d37528, 0xb62ec4bc, 0xade79437, 0x6112a3b7, 0xedffbff8, 0xc74c6516), 0x702138a4);
    NextRound(31, Words(0xea992a22, 0xa0060b30, 0x363482c9, 0x77d37528, 0x0109ab3a, 0xade79437, 0x6112a3b7, 0xedffbff8), 0xd3b7973b);
  }

  lemma RoundsFrom32()
    ensures RoundsOfAbc(36) == Words(0x65a0cfe4, 0xa9a7738c, 0xfe604df5, 0x98e12507, 0xf4b002d6, 0x085f3833, 0x59249dd3, 0x9cd9f5f6)
  {
    hide ScheduleOfAbc, RoundsOfAbc;
    RoundsFrom28();
    WordsFrom32();
    ConstantsFrom32();
    NextRound(32, Words(0x73b33bf5, 0xea992a22, 0xa0060b30, 0x363482c9, 0xba591112, 0x0109ab3a, 0xade79437, 0x6112a3b7), 0x93f5997f);
    NextRound(33, Words(0x98e12507, 0x73b33bf5, 0xea992a22, 0xa0060b30, 0x9cd9f5f6, 0xba591112, 0x0109ab3a, 0xade79437), 0x3b68ba73);
    NextRound(34, Words(0xfe604df5, 0x98e12507, 0x73b33bf5, 0xea992a22, 0x59249dd3, 0x9cd9f5f6, 0xba591112, 0x0109ab3a), 0xaff4ffc1);
    NextRound(35, Words(0xa9a7738c, 0xfe604df5, 0x98e12507, 0x73b33bf5, 0x085f3833, 0x59249dd3, 0x9cd9f5f6, 0xba591112), 0xf10a5c62);
  }

  lemma RoundsFrom36()
    ensures RoundsOfAbc(40) == Words(0x79ea687a, 0x6dc57a8a, 0x34df1604, 0x41a65cb1, 0x1efbc0a0, 0xf0781bc8, 0xa507a53d, 0x0772a26b)
  {
    hide ScheduleOfAbc, RoundsOfAbc;
    RoundsFrom32();
    WordsFrom32();
    ConstantsFrom32();
    NextRound(36, Words(0x65a0cfe4, 0xa9a7738c, 0xfe604df5, 0x98e12507, 0xf4b002d6, 0x085f3833, 0x59249dd3, 0x9cd9f5f6), 0x0a8b3996);
    NextRound(37, Words(0x41a65cb1, 0x65a0cfe4, 0xa9a7738c, 0xfe604df5, 0x0772a26b, 0xf4b002d6, 0x085f3833, 0x59249dd3), 0x72af830a);
    NextRound(38, Words(0x34df1604, 0x41a65cb1, 0x65a0cfe4, 0xa9a7738c, 0xa507a53d, 0x0772a26b, 0xf4b002d6, 0x085f3833), 0x9409e33e);
    NextRound(39, Words(0x6dc57a8a, 0x34df1604, 0x41a65cb1, 0x65a0cfe4, 0xf0781bc8, 0xa507a53d, 0x0772a26b, 0xf4b002d6), 0x24641522);
  }

  lemma RoundsFrom40()
    ensures RoundsOfAbc(44) == Words(0x9d4baf93, 0x17aa0dfe, 0xdf46652f, 0xd6670766, 0xfda24c2e, 0xdecd4715, 0x838b2711, 0x26352d63)
  {
    hide ScheduleOfAbc, RoundsOfAbc;
    RoundsFrom36();
    WordsFrom40();
    ConstantsFrom40();
    NextRound(40, Words(0x79ea687a, 0x6dc57a8a, 0x34df1604, 0x41a65cb1, 0x1efbc0a0, 0xf0781bc8, 0xa507a53d, 0x0772a26b), 0x9f47bf94);
    NextRound(41, Words(0xd6670766, 0x79ea687a, 0x6dc57a8a, 0x34df1604, 0x26352d63, 0x1efbc0a0, 0xf0781bc8, 0xa507a53d), 0xf0a64f5a);
    NextRound(42, Words(0xdf46652f, 0xd6670766, 0x79ea687a, 0x6dc57a8a, 0x838b2711, 0x26352d63, 0x1efbc0a0, 0xf0781bc8), 0x3e246a79);
    NextRound(43, Words(0x17aa0dfe, 0xdf46652f, 0xd6670766, 0x79ea687a, 0xdecd4715, 0x838b2711, 0x26352d63, 0x1efbc0a0), 0x27333ba3);
  }

  lemma RoundsFrom44()
    ensures RoundsOfAbc(48) == Words(0x4172328d, 0xa14c14b0, 0x72ab4b91, 0x26628815, 0xfecf0bc6, 0xd57b94a9, 0xb7755da1, 0xa80f11f0)
  {
    hide ScheduleOfAbc, RoundsOfAbc;
    RoundsFrom40();
    WordsFrom40();
    ConstantsFrom40();
    NextRound(44, Words(0x9d4baf93, 0x17aa0dfe, 0xdf46652f, 0xd6670766, 0xfda24c2e, 0xdecd4715, 0x838b2711, 0x26352d63), 0x0c4763f2);
    NextRound(45, Words(0x26628815, 0x9d4baf93, 0x17aa0dfe, 0xdf46652f, 0xa80f11f0, 0xfda24c2e, 0xdecd4715, 0x838b2711), 0x840abf27);
    NextRound(46, Words(0x72ab4b91, 0x26628815, 0x9d4baf93, 0x17aa0dfe, 0xb7755da1, 0xa80f11f0, 0xfda24c2e, 0xdecd4715), 0x7a290d5d);
    NextRound(47, Words(0xa14c14b0, 0x72ab4b91, 0x26628815, 0x9d4baf93, 0xd57b94a9, 0xb7755da1, 0xa80f11f0, 0xfda24c2e), 0x065c43da);
  }

  lemma RoundsFrom48()
    ensures RoundsOfAbc(52) == Words(0x886e7a22, 0x7a0508a1, 0xf11bfaa8, 0x05757ceb, 0x49231c1e, 0x52f1ccf7, 0x6e5c390c, 0xbd714038)
  {
    hide ScheduleOfAbc, RoundsOfAbc;
    RoundsFrom44();
    WordsFrom48();
    ConstantsFrom48();
    NextRound(48, Words(0x4172328d, 0xa14c14b0, 0x72ab4b91, 0x26628815, 0xfecf0bc6, 0xd57b94a9, 0xb7755da1, 0xa80f11f0), 0xfb3e89cb);
    NextRound(49, Words(0x05757ceb, 0x4172328d, 0xa14c14b0, 0x72ab4b91, 0xbd714038, 0xfecf0bc6, 0xd57b94a9, 0xb7755da1), 0xcc7617db);
    NextRound(50, Words(0xf11bfaa8, 0x05757ceb, 0x4172328d, 0xa14c14b0, 0x6e5c390c, 0xbd714038, 0xfecf0bc6, 0xd57b94a9), 0xb9e66c34);
    NextRound(51, Words(0x7a0508a1, 0xf11bfaa8, 0x05757ceb, 0x4172328d, 0x52f1ccf7, 0x6e5c390c, 0xbd714038, 0xfecf0bc6), 0xa9993667);
  }

  lemma RoundsFrom52()
    ensures RoundsOfAbc(56) == Words(0x38cc9913, 0x3ec45cdb, 0xf5702fdb, 0x101fd28f, 0x54cb266b, 0xe50e1b4f, 0x9f4787c3, 0x529e7d00)
  {
    hide ScheduleOfAbc, RoundsOfAbc;
    RoundsFrom48();
    WordsFrom48();
    ConstantsFrom48();
    NextRound(52, Words(0x886e7a22, 0x7a0508a1, 0xf11bfaa8, 0x05757ceb, 0x49231c1e, 0x52f1ccf7, 0x6e5c390c, 0xbd714038), 0x84badedd);
    NextRound(53, Words(0x101fd28f, 0x886e7a22, 0x7a0508a1, 0xf11bfaa8, 0x529e7d00, 0x49231c1e, 0x52f1ccf7, 0x6e5c390c), 0xc21462bc);
    NextRound(54, Words(0xf5702fdb, 0x101fd28f, 0x886e7a22, 0x7a0508a1, 0x9f4787c3, 0x529e7d00, 0x49231c1e, 0x52f1ccf7), 0x1487472c);
    NextRound(55, Words(0x3ec45cdb, 0xf5702fdb, 0x101fd28f, 0x886e7a22, 0xe50e1b4f, 0x9f4787c3, 0x529e7d00, 0x49231c1e), 0xb20f7a99);
  }

  lemma RoundsFrom56()
    ensures RoundsOfAbc(60) == Words(0xb6ae8fff, 0xffb70472, 0xc062d46f, 0xfcd1887b, 0xb21bad3d, 0x6d83bfc6, 0x7e44008e, 0x9b5e906c)
  {
    hide ScheduleOfAbc, RoundsOfAbc;
    RoundsFrom52();
    WordsFrom56();
    ConstantsFrom56();
    NextRound(56, Words(0x38cc9913, 0x3ec45cdb, 0xf5702fdb, 0x101fd28f, 0x54cb266b, 0xe50e1b4f, 0x9f4787c3, 0x529e7d00), 0xef57b9cd);
    NextRound(57, Words(0xfcd1887b, 0x38cc9913, 0x3ec45cdb, 0xf5702fdb, 0x9b5e906c, 0x54cb266b, 0xe50e1b4f, 0x9f4787c3), 0xebe6b238);
    NextRound(58, Words(0xc062d46f, 0xfcd1887b, 0x38cc9913, 0x3ec45cdb, 0x7e44008e, 0x9b5e906c, 0x54cb266b, 0xe50e1b4f), 0x9fe3095e);
    NextRound(59, Words(0xffb70472, 0xc062d46f, 0xfcd1887b, 0x38cc9913, 0x6d83bfc6, 0x7e44008e, 0x9b5e906c, 0x54cb266b), 0x78bc8d4b);
  }

  lemma RoundsFrom60()
    ensures RoundsOfAbc(64) == Words(0x506e3058, 0xd39a2165, 0x04d24d6c, 0xb85e2ce9, 0x5ef50f24, 0xfb121210, 0x948d25b6, 0x961f4894)
  {
    hide ScheduleOfAbc, RoundsOfAbc;
    RoundsFrom56();
    WordsFrom56();
    ConstantsFrom56();
    NextRound(60, Words(0xb6ae8fff, 0xffb70472, 0xc062d46f, 0xfcd1887b, 0xb21bad3d, 0x6d83bfc6, 0x7e44008e, 0x9b5e906c), 0xa43fcf15);
    NextRound(61, Words(0xb85e2ce9, 0xb6ae8fff, 0xffb70472, 0xc062d46f, 0x961f4894, 0xb21bad3d, 0x6d83bfc6, 0x7e44008e), 0x668b2ff8);
    NextRound(62, Words(0x04d24d6c, 0xb85e2ce9, 0xb6ae8fff, 0xffb70472, 0x948d25b6, 0x961f4894, 0xb21bad3d, 0x6d83bfc6), 0xeeaba2cc);
    NextRound(63, Words(0xd39a2165, 0x04d24d6c, 0xb85e2ce9, 0xb6ae8fff, 0xfb121210, 0x948d25b6, 0x961f4894, 0xb21bad3d), 0x12b1edeb);
  }

  lemma StartOfRounds()
    ensures RoundsOfAbc(0) == INITIAL
  {
  }

  lemma BytesOfA()
    ensures ByteAt(0xba7816bf, 0) == 0xba && ByteAt(0xba7816bf, 1) == 0x78 && ByteAt(0xba7816bf, 2) == 0x16 && ByteAt(0xba7816bf, 3) == 0xbf
  {
  }

  lemma BytesOfB()
    ensures ByteAt(0x8f01cfea, 0) == 0x8f && ByteAt(0x8f01cfea, 1) == 0x01 && ByteAt(0x8f01cfea, 2) == 0xcf && ByteAt(0x8f01cfea, 3) == 0xea
  {
  }

  lemma BytesOfC()
    ensures ByteAt(0x414140de, 0) == 0x41 && ByteAt(0x414140de, 1) == 0x41 && ByteAt(0x414140de, 2) == 0x40 && ByteAt(0x414140de, 3) == 0xde
  {
  }

  lemma BytesOfD()
    ensures ByteAt(0x5dae2223, 0) == 0x5d && ByteAt(0x5dae2223, 1) == 0xae && ByteAt(0x5dae2223, 2) == 0x22 && ByteAt(0x5dae2223, 3) == 0x23
  {
  }

  lemma BytesOfE()
    ensures ByteAt(0xb00361a3, 0) == 0xb0 && ByteAt(0xb00361a3, 1) == 0x03 && ByteAt(0xb00361a3, 2) == 0x61 && ByteAt(0xb00361a3, 3) == 0xa3
  {
  }

  lemma BytesOfF()
    ensures ByteAt(0x96177a9c, 0) == 0x96 && ByteAt(0x96177a9c, 1) == 0x17 && ByteAt(0x96177a9c, 2) == 0x7a && ByteAt(0x96177a9c, 3) == 0x9c
  {
  }

  lemma BytesOfG()
    ensures ByteAt(0xb410ff61, 0) == 0xb4 && ByteAt(0xb410ff61, 1) == 0x10 && ByteAt(0xb410ff61, 2) == 0xff && ByteAt(0xb410ff61, 3) == 0x61
  {
  }

  lemma BytesOfH()
    ensures ByteAt(0xf20015ad, 0) == 0xf2 && ByteAt(0xf20015ad, 1) == 0x00 && ByteAt(0xf20015ad, 2) == 0x15 && ByteAt(0xf20015ad, 3) == 0xad
  {
  }

  function Four(w: Word): seq<Byte> { [ByteAt(w, 0), ByteAt(w, 1), ByteAt(w, 2), ByteAt(w, 3)] }

  lemma OutputIs(v: Words, j: nat)
    requires j < 8
    ensures Output(v)[4 * j..4 * j + 4] == Four(WordAt(v, j))
  {
    hide ByteAt, Output;
    OutputAt(v, j, 0);
    OutputAt(v, j, 1);
    OutputAt(v, j, 2);
    OutputAt(v, j, 3);
  }

  lemma EightParts(r: seq<Byte>)
    requires |r| == 32
    ensures r == r[0..4] + r[4..8] + r[8..12] + r[12..16] + r[16..20] + r[20..24] + r[24..28] + r[28..32]
  {
  }

  /** The digest of "abc". */
  lemma DigestOfAbc()
    ensures Digest(ABC) ==
              [0xba, 0x78, 0x16, 0xbf]
            + [0x8f, 0x01, 0xcf, 0xea]
            + [0x41, 0x41, 0x40, 0xde]
            + [0x5d, 0xae, 0x22, 0x23]
            + [0xb0, 0x03, 0x61, 0xa3]
            + [0x96, 0x17, 0x7a, 0x9c]
            + [0xb4, 0x10, 0xff, 0x61]
            + [0xf2, 0x00, 0x15, 0xad]
  {
    hide Output, ByteAt, RoundsOfAbc, Rounds;
    var v := Words(0xba7816bf, 0x8f01cfea, 0x414140de, 0x5dae2223, 0xb00361a3, 0x96177a9c, 0xb410ff61, 0xf20015ad);
    var r := Output(v);
    HashOfAbc();
    EightParts(r);
    OutputIs(v, 0);
    BytesOfA();
    OutputIs(v, 1);
    BytesOfB();
    OutputIs(v, 2);
    BytesOfC();
    OutputIs(v, 3);
    BytesOfD();
    OutputIs(v, 4);
    BytesOfE();
    OutputIs(v, 5);
    BytesOfF();
    OutputIs(v, 6);
    BytesOfG();
    OutputIs(v, 7);
    BytesOfH();
  }

  lemma HashOfAbc()
    ensures HashValue(ABC) == Words(0xba7816bf, 0x8f01cfea, 0x414140de, 0x5dae2223, 0xb00361a3, 0x96177a9c, 0xb410ff61, 0xf20015ad)
  {
    hide RoundsOfAbc;
    BlockOfAbc();
    OneBlock(INITIAL, BLOCK);
    CompressIsSum();
    RoundsFrom60();
    LastSum();
  }

  lemma CompressIsSum()
    ensures |BLOCK| == 64 && Compress(INITIAL, BLOCK) == Sum(INITIAL, RoundsOfAbc(64))
  {
    BlockOfAbc();
  }

  lemma LastSum()
    ensures Sum(INITIAL, Words(0x506e3058, 0xd39a2165, 0x04d24d6c, 0xb85e2ce9, 0x5ef50f24, 0xfb121210, 0x948d25b6, 0x961f4894))
        == Words(0xba7816bf, 0x8f01cfea, 0x414140de, 0x5dae2223, 0xb00361a3, 0x96177a9c, 0xb410ff61, 0xf20015ad)
  {
  }
}
