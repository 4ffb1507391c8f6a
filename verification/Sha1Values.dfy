/** SHA-1 (src/git_sha1.cpp) against the worked example of the standard: the digest of the three bytes
    "abc", word by word and round by round. */
module Sha1Values {
  import opened Checksums
  import opened Sha1Hash

  const ABC: Bytes := [0x61, 0x62, 0x63]

  /** The one block of the padded message: the bytes, the marker, zeros and the length of 24 bits. */
  const BLOCK: Bytes := ABC + [0x80] + Zeros(52) + [0, 0, 0, 0, 0, 0, 0, 24]

  lemma BlockIsPadded()
    ensures |BLOCK| == 64 && Pad(ABC) == BLOCK
  {
    hide BigEndian;
    LengthBytes();
  }

  lemma LengthBytes()
    ensures BigEndian(24, 8) == [0, 0, 0, 0, 0, 0, 0, 24]
  {
    assert BigEndian(0, 7) == BigEndian(0, 6) + [0];
    NoBytes(7);
    Checksums.IntOfByte(24);
  }

  lemma {:induction false} NoBytes(k: nat)
    ensures BigEndian(0, k) == Zeros(k)
  {
    if k == 0 {
    } else {
      NoBytes(k - 1);
      Checksums.IntOfByte(0);
    }
  }

  // ----- The message schedule -----

  lemma NextWord(t: nat, x: bv32, y: bv32, z: bv32, u: bv32, word: bv32)
    requires |BLOCK| == 64 && 16 <= t
    requires W(BLOCK, t - 3) == x && W(BLOCK, t - 8) == y && W(BLOCK, t - 14) == z && W(BLOCK, t - 16) == u
    requires RotateLeft(Mix(x, y, z, u), 1) == word
    ensures W(BLOCK, t) == word
  {
    hide RotateLeft, Mix;
  }

  lemma Words0()
    ensures |BLOCK| == 64
    ensures W(BLOCK, 0) == 0x61626380 && W(BLOCK, 15) == 24
    ensures forall t :: 0 < t < 15 ==> W(BLOCK, t) == 0
  {
    BlockIsPadded();
  }

  lemma Words16()
    ensures |BLOCK| == 64
    ensures W(BLOCK, 16) == 0xc2c4c700 && W(BLOCK, 17) == 0x00000000
    ensures W(BLOCK, 18) == 0x00000030 && W(BLOCK, 19) == 0x85898e01
    ensures W(BLOCK, 20) == 0x00000000 && W(BLOCK, 21) == 0x00000060
    ensures W(BLOCK, 22) == 0x0b131c03 && W(BLOCK, 23) == 0x00000030
  {
    hide W;
    Words0();
    NextWord(16, 0x00000000, 0x00000000, 0x00000000, 0x61626380, 0xc2c4c700);
    NextWord(17, 0x00000000, 0x00000000, 0x00000000, 0x00000000, 0x00000000);
    NextWord(18, 0x00000018, 0x00000000, 0x00000000, 0x00000000, 0x00000030);
    NextWord(19, 0xc2c4c700, 0x00000000, 0x00000000, 0x00000000, 0x85898e01);
    NextWord(20, 0x00000000, 0x00000000, 0x00000000, 0x00000000, 0x00000000);
    NextWord(21, 0x00000030, 0x00000000, 0x00000000, 0x00000000, 0x00000060);
    NextWord(22, 0x85898e01, 0x00000000, 0x00000000, 0x00000000, 0x0b131c03);
    NextWord(23, 0x00000000, 0x00000018, 0x00000000, 0x00000000, 0x00000030);
  }

  lemma Words24()
    ensures |BLOCK| == 64
    ensures W(BLOCK, 24) == 0x85898ec1 && W(BLOCK, 25) == 0x16263806
    ensures W(BLOCK, 26) == 0x00000000 && W(BLOCK, 27) == 0x00000180
    ensures W(BLOCK, 28) == 0x2c4c700c && W(BLOCK, 29) == 0x000000f0
    ensures W(BLOCK, 30) == 0x93afb507 && W(BLOCK, 31) == 0x5898e048
  {
    hide W;
    Words0();
    Words16();
    NextWord(24, 0x00000060, 0xc2c4c700, 0x00000000, 0x00000000, 0x85898ec1);
    NextWord(25, 0x0b131c03, 0x00000000, 0x00000000, 0x00000000, 0x16263806);
    NextWord(26, 0x00000030, 0x00000030, 0x00000000, 0x00000000, 0x00000000);
    NextWord(27, 0x85898ec1, 0x85898e01, 0x00000000, 0x00000000, 0x00000180);
    NextWord(28, 0x16263806, 0x00000000, 0x00000000, 0x00000000, 0x2c4c700c);
    NextWord(29, 0x00000000, 0x00000060, 0x00000018, 0x00000000, 0x000000f0);
    NextWord(30, 0x00000180, 0x0b131c03, 0xc2c4c700, 0x00000000, 0x93afb507);
    NextWord(31, 0x2c4c700c, 0x00000030, 0x00000000, 0x00000018, 0x5898e048);
  }

  lemma Words32()
    ensures |BLOCK| == 64
    ensures W(BLOCK, 32) == 0x8e9a9202 && W(BLOCK, 33) == 0x00000600
    ensures W(BLOCK, 34) == 0xb131c0f0 && W(BLOCK, 35) == 0x16263bc6
    ensures W(BLOCK, 36) == 0x4ebed41e && W(BLOCK, 37) == 0x626380a1
    ensures W(BLOCK, 38) == 0x16263806 && W(BLOCK, 39) == 0x000018c0
  {
    hide W;
    Words16();
    Words24();
    NextWord(32, 0x000000f0, 0x85898ec1, 0x00000030, 0xc2c4c700, 0x8e9a9202);
    NextWord(33, 0x93afb507, 0x16263806, 0x85898e01, 0x00000000, 0x00000600);
    NextWord(34, 0x5898e048, 0x00000000, 0x00000000, 0x00000030, 0xb131c0f0);
    NextWord(35, 0x8e9a9202, 0x00000180, 0x00000060, 0x85898e01, 0x16263bc6);
    NextWord(36, 0x00000600, 0x2c4c700c, 0x0b131c03, 0x00000000, 0x4ebed41e);
    NextWord(37, 0xb131c0f0, 0x000000f0, 0x00000030, 0x00000060, 0x626380a1);
    NextWord(38, 0x16263bc6, 0x93afb507, 0x85898ec1, 0x0b131c03, 0x16263806);
    NextWord(39, 0x4ebed41e, 0x5898e048, 0x16263806, 0x00000030, 0x000018c0);
  }

  lemma Words40()
    ensures |BLOCK| == 64
    ensures W(BLOCK, 40) == 0xd2e138c4 && W(BLOCK, 41) == 0x00000f00
    ensures W(BLOCK, 42) == 0x3afb5079 && W(BLOCK, 43) == 0x898e04e5
    ensures W(BLOCK, 44) == 0xe2ba3c2b && W(BLOCK, 45) == 0x000060c0
    ensures W(BLOCK, 46) == 0x053a37cd && W(BLOCK, 47) == 0x74458547
  {
    hide W;
    Words24();
    Words32();
    NextWord(40, 0x626380a1, 0x8e9a9202, 0x00000000, 0x85898ec1, 0xd2e138c4);
    NextWord(41, 0x16263806, 0x00000600, 0x00000180, 0x16263806, 0x00000f00);
    NextWord(42, 0x000018c0, 0xb131c0f0, 0x2c4c700c, 0x00000000, 0x3afb5079);
    NextWord(43, 0xd2e138c4, 0x16263bc6, 0x000000f0, 0x00000180, 0x898e04e5);
    NextWord(44, 0x00000f00, 0x4ebed41e, 0x93afb507, 0x2c4c700c, 0xe2ba3c2b);
    NextWord(45, 0x3afb5079, 0x626380a1, 0x5898e048, 0x000000f0, 0x000060c0);
    NextWord(46, 0x898e04e5, 0x16263806, 0x8e9a9202, 0x93afb507, 0x053a37cd);
    NextWord(47, 0xe2ba3c2b, 0x000018c0, 0x00000600, 0x5898e048, 0x74458547);
  }

  lemma Words48()
    ensures |BLOCK| == 64
    ensures W(BLOCK, 48) == 0xda9415ed && W(BLOCK, 49) == 0x26380a16
    ensures W(BLOCK, 50) == 0x626383a1 && W(BLOCK, 51) == 0x4ebf54de
    ensures W(BLOCK, 52) == 0x3835b44b && W(BLOCK, 53) == 0x0000f600
    ensures W(BLOCK, 54) == 0x1e84c7a3 && W(BLOCK, 55) == 0x98e04d98
  {
    hide W;
    Words32();
    Words40();
    NextWord(48, 0x000060c0, 0xd2e138c4, 0xb131c0f0, 0x8e9a9202, 0xda9415ed);
    NextWord(49, 0x053a37cd, 0x00000f00, 0x16263bc6, 0x00000600, 0x26380a16);
    NextWord(50, 0x74458547, 0x3afb5079, 0x4ebed41e, 0xb131c0f0, 0x626383a1);
    NextWord(51, 0xda9415ed, 0x898e04e5, 0x626380a1, 0x16263bc6, 0x4ebf54de);
    NextWord(52, 0x26380a16, 0xe2ba3c2b, 0x16263806, 0x4ebed41e, 0x3835b44b);
    NextWord(53, 0x626383a1, 0x000060c0, 0x000018c0, 0x626380a1, 0x0000f600);
    NextWord(54, 0x4ebf54de, 0x053a37cd, 0xd2e138c4, 0x16263806, 0x1e84c7a3);
    NextWord(55, 0x3835b44b, 0x74458547, 0x00000f00, 0x000018c0, 0x98e04d98);
  }

  lemma Words56()
    ensures |BLOCK| == 64
    ensures W(BLOCK, 56) == 0x651d16a0 && W(BLOCK, 57) == 0x62658ca1
    ensures W(BLOCK, 58) == 0x458544d6 && W(BLOCK, 59) == 0x44584cb7
    ensures W(BLOCK, 60) == 0x7ba06619 && W(BLOCK, 61) == 0x6380aea2
    ensures W(BLOCK, 62) == 0x0ae55269 && W(BLOCK, 63) == 0x627b49a1
  {
    hide W;
    Words40();
    Words48();
    NextWord(56, 0x0000f600, 0xda9415ed, 0x3afb5079, 0xd2e138c4, 0x651d16a0);
    NextWord(57, 0x1e84c7a3, 0x26380a16, 0x898e04e5, 0x00000f00, 0x62658ca1);
    NextWord(58, 0x98e04d98, 0x626383a1, 0xe2ba3c2b, 0x3afb5079, 0x458544d6);
    NextWord(59, 0x651d16a0, 0x4ebf54de, 0x000060c0, 0x898e04e5, 0x44584cb7);
    NextWord(60, 0x62658ca1, 0x3835b44b, 0x053a37cd, 0xe2ba3c2b, 0x7ba06619);
    NextWord(61, 0x458544d6, 0x0000f600, 0x74458547, 0x000060c0, 0x6380aea2);
    NextWord(62, 0x44584cb7, 0x1e84c7a3, 0xda9415ed, 0x053a37cd, 0x0ae55269);
    NextWord(63, 0x7ba06619, 0x98e04d98, 0x26380a16, 0x74458547, 0x627b49a1);
  }

  lemma Words64()
    ensures |BLOCK| == 64
    ensures W(BLOCK, 64) == 0x7cd45c9d && W(BLOCK, 65) == 0x000f0000
    ensures W(BLOCK, 66) == 0xfb50753a && W(BLOCK, 67) == 0xec6765e8
    ensures W(BLOCK, 68) == 0xba3c2be2 && W(BLOCK, 69) == 0x0060c000
    ensures W(BLOCK, 70) == 0x3a37cd05 && W(BLOCK, 71) == 0x458546f4
  {
    hide W;
    Words48();
    Words56();
    NextWord(64, 0x6380aea2, 0x651d16a0, 0x626383a1, 0xda9415ed, 0x7cd45c9d);
    NextWord(65, 0x0ae55269, 0x62658ca1, 0x4ebf54de, 0x26380a16, 0x000f0000);
    NextWord(66, 0x627b49a1, 0x458544d6, 0x3835b44b, 0x626383a1, 0xfb50753a);
    NextWord(67, 0x7cd45c9d, 0x44584cb7, 0x0000f600, 0x4ebf54de, 0xec6765e8);
    NextWord(68, 0x000f0000, 0x7ba06619, 0x1e84c7a3, 0x3835b44b, 0xba3c2be2);
    NextWord(69, 0xfb50753a, 0x6380aea2, 0x98e04d98, 0x0000f600, 0x0060c000);
    NextWord(70, 0xec6765e8, 0x0ae55269, 0x651d16a0, 0x1e84c7a3, 0x3a37cd05);
    NextWord(71, 0xba3c2be2, 0x627b49a1, 0x62658ca1, 0x98e04d98, 0x458546f4);
  }

  lemma Words72()
    ensures |BLOCK| == 64
    ensures W(BLOCK, 72) == 0xb8599dd6 && W(BLOCK, 73) == 0x380a1a26
    ensures W(BLOCK, 74) == 0x01e02203 && W(BLOCK, 75) == 0xe7cc3456
    ensures W(BLOCK, 76) == 0xe6e60b69 && W(BLOCK, 77) == 0x00f60a00
    ensures W(BLOCK, 78) == 0x5795ef4f && W(BLOCK, 79) == 0x822e0879
  {
    hide W;
    Words56();
    Words64();
    NextWord(72, 0x0060c000, 0x7cd45c9d, 0x458544d6, 0x651d16a0, 0xb8599dd6);
    NextWord(73, 0x3a37cd05, 0x000f0000, 0x44584cb7, 0x62658ca1, 0x380a1a26);
    NextWord(74, 0x458546f4, 0xfb50753a, 0x7ba06619, 0x458544d6, 0x01e02203);
    NextWord(75, 0xb8599dd6, 0xec6765e8, 0x6380aea2, 0x44584cb7, 0xe7cc3456);
    NextWord(76, 0x380a1a26, 0xba3c2be2, 0x0ae55269, 0x7ba06619, 0xe6e60b69);
    NextWord(77, 0x01e02203, 0x0060c000, 0x627b49a1, 0x6380aea2, 0x00f60a00);
    NextWord(78, 0xe7cc3456, 0x3a37cd05, 0x7cd45c9d, 0x0ae55269, 0x5795ef4f);
    NextWord(79, 0xe6e60b69, 0x458546f4, 0x000f0000, 0x627b49a1, 0x822e0879);
  }

  // ----- The eighty rounds -----

  lemma NextRound(t: nat, h: Hash, word: bv32, next: Hash)
    requires |BLOCK| == 64 && Rounds(INITIAL, BLOCK, t) == h && W(BLOCK, t) == word && Round(h, t, word) == next
    ensures Rounds(INITIAL, BLOCK, t + 1) == next
  {
    hide Round, W;
  }

  lemma Rounds10()
    ensures |BLOCK| == 64
    ensures Rounds(INITIAL, BLOCK, 10) == Hash(0x8351f929, 0x4b6ae328, 0x27a301f5, 0x664f8c30, 0x0ff1f290)
  {
    hide W, Rounds;
    NoRounds();
    Words0();
    NextRound(0, Hash(0x67452301, 0xefcdab89, 0x98badcfe, 0x10325476, 0xc3d2e1f0), 0x61626380,
      Hash(0x0116fc33, 0x67452301, 0x7bf36ae2, 0x98badcfe, 0x10325476));
    NextRound(1, Hash(0x0116fc33, 0x67452301, 0x7bf36ae2, 0x98badcfe, 0x10325476), 0x00000000,
      Hash(0x8990536d, 0x0116fc33, 0x59d148c0, 0x7bf36ae2, 0x98badcfe));
    NextRound(2, Hash(0x8990536d, 0x0116fc33, 0x59d148c0, 0x7bf36ae2, 0x98badcfe), 0x00000000,
      Hash(0xa1390f08, 0x8990536d, 0xc045bf0c, 0x59d148c0, 0x7bf36ae2));
    NextRound(3, Hash(0xa1390f08, 0x8990536d, 0xc045bf0c, 0x59d148c0, 0x7bf36ae2), 0x00000000,
      Hash(0xcdd8e11b, 0xa1390f08, 0x626414db, 0xc045bf0c, 0x59d148c0));
    NextRound(4, Hash(0xcdd8e11b, 0xa1390f08, 0x626414db, 0xc045bf0c, 0x59d148c0), 0x00000000,
      Hash(0xcfd499de, 0xcdd8e11b, 0x284e43c2, 0x626414db, 0xc045bf0c));
    NextRound(5, Hash(0xcfd499de, 0xcdd8e11b, 0x284e43c2, 0x626414db, 0xc045bf0c), 0x00000000,
      Hash(0x3fc7ca40, 0xcfd499de, 0xf3763846, 0x284e43c2, 0x626414db));
    NextRound(6, Hash(0x3fc7ca40, 0xcfd499de, 0xf3763846, 0x284e43c2, 0x626414db), 0x00000000,
      Hash(0x993e30c1, 0x3fc7ca40, 0xb3f52677, 0xf3763846, 0x284e43c2));
    NextRound(7, Hash(0x993e30c1, 0x3fc7ca40, 0xb3f52677, 0xf3763846, 0x284e43c2), 0x00000000,
      Hash(0x9e8c07d4, 0x993e30c1, 0x0ff1f290, 0xb3f52677, 0xf3763846));
    NextRound(8, Hash(0x9e8c07d4, 0x993e30c1, 0x0ff1f290, 0xb3f52677, 0xf3763846), 0x00000000,
      Hash(0x4b6ae328, 0x9e8c07d4, 0x664f8c30, 0x0ff1f290, 0xb3f52677));
    NextRound(9, Hash(0x4b6ae328, 0x9e8c07d4, 0x664f8c30, 0x0ff1f290, 0xb3f52677), 0x00000000,
      Hash(0x8351f929, 0x4b6ae328, 0x27a301f5, 0x664f8c30, 0x0ff1f290));
  }

  lemma Rounds20()
    ensures |BLOCK| == 64
    ensures Rounds(INITIAL, BLOCK, 20) == Hash(0xfd9e1d7d, 0xdc64901d, 0x20aa99ca, 0xd3a49608, 0xc82f758b)
  {
    hide W, Rounds;
    Rounds10();
    Words0();
    Words16();
    NextRound(10, Hash(0x8351f929, 0x4b6ae328, 0x27a301f5, 0x664f8c30, 0x0ff1f290), 0x00000000,
      Hash(0xfbda9e89, 0x8351f929, 0x12dab8ca, 0x27a301f5, 0x664f8c30));
    NextRound(11, Hash(0xfbda9e89, 0x8351f929, 0x12dab8ca, 0x27a301f5, 0x664f8c30), 0x00000000,
      Hash(0x63188fe4, 0xfbda9e89, 0x60d47e4a, 0x12dab8ca, 0x27a301f5));
    NextRound(12, Hash(0x63188fe4, 0xfbda9e89, 0x60d47e4a, 0x12dab8ca, 0x27a301f5), 0x00000000,
      Hash(0x4607b664, 0x63188fe4, 0x7ef6a7a2, 0x60d47e4a, 0x12dab8ca));
    NextRound(13, Hash(0x4607b664, 0x63188fe4, 0x7ef6a7a2, 0x60d47e4a, 0x12dab8ca), 0x00000000,
      Hash(0x9128f695, 0x4607b664, 0x18c623f9, 0x7ef6a7a2, 0x60d47e4a));
    NextRound(14, Hash(0x9128f695, 0x4607b664, 0x18c623f9, 0x7ef6a7a2, 0x60d47e4a), 0x00000000,
      Hash(0x196bee77, 0x9128f695, 0x1181ed99, 0x18c623f9, 0x7ef6a7a2));
    NextRound(15, Hash(0x196bee77, 0x9128f695, 0x1181ed99, 0x18c623f9, 0x7ef6a7a2), 0x00000018,
      Hash(0x20bdd62f, 0x196bee77, 0x644a3da5, 0x1181ed99, 0x18c623f9));
    NextRound(16, Hash(0x20bdd62f, 0x196bee77, 0x644a3da5, 0x1181ed99, 0x18c623f9), 0xc2c4c700,
      Hash(0x4e925823, 0x20bdd62f, 0xc65afb9d, 0x644a3da5, 0x1181ed99));
    NextRound(17, Hash(0x4e925823, 0x20bdd62f, 0xc65afb9d, 0x644a3da5, 0x1181ed99), 0x00000000,
      Hash(0x82aa6728, 0x4e925823, 0xc82f758b, 0xc65afb9d, 0x644a3da5));
    NextRound(18, Hash(0x82aa6728, 0x4e925823, 0xc82f758b, 0xc65afb9d, 0x644a3da5), 0x00000030,
      Hash(0xdc64901d, 0x82aa6728, 0xd3a49608, 0xc82f758b, 0xc65afb9d));
    NextRound(19, Hash(0xdc64901d, 0x82aa6728, 0xd3a49608, 0xc82f758b, 0xc65afb9d), 0x85898e01,
      Hash(0xfd9e1d7d, 0xdc64901d, 0x20aa99ca, 0xd3a49608, 0xc82f758b));
  }

  lemma Rounds30()
    ensures |BLOCK| == 64
    ensures Rounds(INITIAL, BLOCK, 30) == Hash(0xc5fbaf5d, 0x8370b52e, 0xd2aa1365, 0x6f8d7ef5, 0x12104ee9)
  {
    hide W, Rounds;
    Rounds20();
    Words16();
    Words24();
    NextRound(20, Hash(0xfd9e1d7d, 0xdc64901d, 0x20aa99ca, 0xd3a49608, 0xc82f758b), 0x00000000,
      Hash(0x1a37b0ca, 0xfd9e1d7d, 0x77192407, 0x20aa99ca, 0xd3a49608));
    NextRound(21, Hash(0x1a37b0ca, 0xfd9e1d7d, 0x77192407, 0x20aa99ca, 0xd3a49608), 0x00000060,
      Hash(0x33a23bfc, 0x1a37b0ca, 0x7f67875f, 0x77192407, 0x20aa99ca));
    NextRound(22, Hash(0x33a23bfc, 0x1a37b0ca, 0x7f67875f, 0x77192407, 0x20aa99ca), 0x0b131c03,
      Hash(0x21283486, 0x33a23bfc, 0x868dec32, 0x7f67875f, 0x77192407));
    NextRound(23, Hash(0x21283486, 0x33a23bfc, 0x868dec32, 0x7f67875f, 0x77192407), 0x00000030,
      Hash(0xd541f12d, 0x21283486, 0x0ce88eff, 0x868dec32, 0x7f67875f));
    NextRound(24, Hash(0xd541f12d, 0x21283486, 0x0ce88eff, 0x868dec32, 0x7f67875f), 0x85898ec1,
      Hash(0xc7567dc6, 0xd541f12d, 0x884a0d21, 0x0ce88eff, 0x868dec32));
    NextRound(25, Hash(0xc7567dc6, 0xd541f12d, 0x884a0d21, 0x0ce88eff, 0x868dec32), 0x16263806,
      Hash(0x48413ba4, 0xc7567dc6, 0x75507c4b, 0x884a0d21, 0x0ce88eff));
    NextRound(26, Hash(0x48413ba4, 0xc7567dc6, 0x75507c4b, 0x884a0d21, 0x0ce88eff), 0x00000000,
      Hash(0xbe35fbd5, 0x48413ba4, 0xb1d59f71, 0x75507c4b, 0x884a0d21));
    NextRound(27, Hash(0xbe35fbd5, 0x48413ba4, 0xb1d59f71, 0x75507c4b, 0x884a0d21), 0x00000180,
      Hash(0x4aa84d97, 0xbe35fbd5, 0x12104ee9, 0xb1d59f71, 0x75507c4b));
    NextRound(28, Hash(0x4aa84d97, 0xbe35fbd5, 0x12104ee9, 0xb1d59f71, 0x75507c4b), 0x2c4c700c,
      Hash(0x8370b52e, 0x4aa84d97, 0x6f8d7ef5, 0x12104ee9, 0xb1d59f71));
    NextRound(29, Hash(0x8370b52e, 0x4aa84d97, 0x6f8d7ef5, 0x12104ee9, 0xb1d59f71), 0x000000f0,
      Hash(0xc5fbaf5d, 0x8370b52e, 0xd2aa1365, 0x6f8d7ef5, 0x12104ee9));
  }

  lemma Rounds40()
    ensures |BLOCK| == 64
    ensures Rounds(INITIAL, BLOCK, 40) == Hash(0x32de1cba, 0x4c986405, 0xf718e5cf, 0x03d447f6, 0xf72eec32)
  {
    hide W, Rounds;
    Rounds30();
    Words24();
    Words32();
    NextRound(30, Hash(0xc5fbaf5d, 0x8370b52e, 0xd2aa1365, 0x6f8d7ef5, 0x12104ee9), 0x93afb507,
      Hash(0x1267b407, 0xc5fbaf5d, 0xa0dc2d4b, 0xd2aa1365, 0x6f8d7ef5));
    NextRound(31, Hash(0x1267b407, 0xc5fbaf5d, 0xa0dc2d4b, 0xd2aa1365, 0x6f8d7ef5), 0x5898e048,
      Hash(0x3b845d33, 0x1267b407, 0x717eebd7, 0xa0dc2d4b, 0xd2aa1365));
    NextRound(32, Hash(0x3b845d33, 0x1267b407, 0x717eebd7, 0xa0dc2d4b, 0xd2aa1365), 0x8e9a9202,
      Hash(0x046faa0a, 0x3b845d33, 0xc499ed01, 0x717eebd7, 0xa0dc2d4b));
    NextRound(33, Hash(0x046faa0a, 0x3b845d33, 0xc499ed01, 0x717eebd7, 0xa0dc2d4b), 0x00000600,
      Hash(0x2c0ebc11, 0x046faa0a, 0xcee1174c, 0xc499ed01, 0x717eebd7));
    NextRound(34, Hash(0x2c0ebc11, 0x046faa0a, 0xcee1174c, 0xc499ed01, 0x717eebd7), 0xb131c0f0,
      Hash(0x21796ad4, 0x2c0ebc11, 0x811bea82, 0xcee1174c, 0xc499ed01));
    NextRound(35, Hash(0x21796ad4, 0x2c0ebc11, 0x811bea82, 0xcee1174c, 0xc499ed01), 0x16263bc6,
      Hash(0xdcbbb0cb, 0x21796ad4, 0x4b03af04, 0x811bea82, 0xcee1174c));
    NextRound(36, Hash(0xdcbbb0cb, 0x21796ad4, 0x4b03af04, 0x811bea82, 0xcee1174c), 0x4ebed41e,
      Hash(0x0f511fd8, 0xdcbbb0cb, 0x085e5ab5, 0x4b03af04, 0x811bea82));
    NextRound(37, Hash(0x0f511fd8, 0xdcbbb0cb, 0x085e5ab5, 0x4b03af04, 0x811bea82), 0x626380a1,
      Hash(0xdc63973f, 0x0f511fd8, 0xf72eec32, 0x085e5ab5, 0x4b03af04));
    NextRound(38, Hash(0xdc63973f, 0x0f511fd8, 0xf72eec32, 0x085e5ab5, 0x4b03af04), 0x16263806,
      Hash(0x4c986405, 0xdc63973f, 0x03d447f6, 0xf72eec32, 0x085e5ab5));
    NextRound(39, Hash(0x4c986405, 0xdc63973f, 0x03d447f6, 0xf72eec32, 0x085e5ab5), 0x000018c0,
      Hash(0x32de1cba, 0x4c986405, 0xf718e5cf, 0x03d447f6, 0xf72eec32));
  }

  lemma Rounds50()
    ensures |BLOCK| == 64
    ensures Rounds(INITIAL, BLOCK, 50) == Hash(0x120731c5, 0xbaf39337, 0xafab40b2, 0x2806e11b, 0x8714787c)
  {
    hide W, Rounds;
    Rounds40();
    Words40();
    Words48();
    NextRound(40, Hash(0x32de1cba, 0x4c986405, 0xf718e5cf, 0x03d447f6, 0xf72eec32), 0xd2e138c4,
      Hash(0xfc87dedf, 0x32de1cba, 0x53261901, 0xf718e5cf, 0x03d447f6));
    NextRound(41, Hash(0xfc87dedf, 0x32de1cba, 0x53261901, 0xf718e5cf, 0x03d447f6), 0x00000f00,
      Hash(0x970a0d5c, 0xfc87dedf, 0x8cb7872e, 0x53261901, 0xf718e5cf));
    NextRound(42, Hash(0x970a0d5c, 0xfc87dedf, 0x8cb7872e, 0x53261901, 0xf718e5cf), 0x3afb5079,
      Hash(0x7f193dc5, 0x970a0d5c, 0xff21f7b7, 0x8cb7872e, 0x53261901));
    NextRound(43, Hash(0x7f193dc5, 0x970a0d5c, 0xff21f7b7, 0x8cb7872e, 0x53261901), 0x898e04e5,
      Hash(0xee1b1aaf, 0x7f193dc5, 0x25c28357, 0xff21f7b7, 0x8cb7872e));
    NextRound(44, Hash(0xee1b1aaf, 0x7f193dc5, 0x25c28357, 0xff21f7b7, 0x8cb7872e), 0xe2ba3c2b,
      Hash(0x40f28e09, 0xee1b1aaf, 0x5fc64f71, 0x25c28357, 0xff21f7b7));
    NextRound(45, Hash(0x40f28e09, 0xee1b1aaf, 0x5fc64f71, 0x25c28357, 0xff21f7b7), 0x000060c0,
      Hash(0x1c51e1f2, 0x40f28e09, 0xfb86c6ab, 0x5fc64f71, 0x25c28357));
    NextRound(46, Hash(0x1c51e1f2, 0x40f28e09, 0xfb86c6ab, 0x5fc64f71, 0x25c28357), 0x053a37cd,
      Hash(0xa01b846c, 0x1c51e1f2, 0x503ca382, 0xfb86c6ab, 0x5fc64f71));
    NextRound(47, Hash(0xa01b846c, 0x1c51e1f2, 0x503ca382, 0xfb86c6ab, 0x5fc64f71), 0x74458547,
      Hash(0xbead02ca, 0xa01b846c, 0x8714787c, 0x503ca382, 0xfb86c6ab));
    NextRound(48, Hash(0xbead02ca, 0xa01b846c, 0x8714787c, 0x503ca382, 0xfb86c6ab), 0xda9415ed,
      Hash(0xbaf39337, 0xbead02ca, 0x2806e11b, 0x8714787c, 0x503ca382));
    NextRound(49, Hash(0xbaf39337, 0xbead02ca, 0x2806e11b, 0x8714787c, 0x503ca382), 0x26380a16,
      Hash(0x120731c5, 0xbaf39337, 0xafab40b2, 0x2806e11b, 0x8714787c));
  }

  lemma Rounds60()
    ensures |BLOCK| == 64
    ensures Rounds(INITIAL, BLOCK, 60) == Hash(0x3f52de5a, 0x09d785fd, 0x3498bfd4, 0xf211824f, 0xd79915ab)
  {
    hide W, Rounds;
    Rounds50();
    Words48();
    Words56();
    NextRound(50, Hash(0x120731c5, 0xbaf39337, 0xafab40b2, 0x2806e11b, 0x8714787c), 0x626383a1,
      Hash(0x641db2ce, 0x120731c5, 0xeebce4cd, 0xafab40b2, 0x2806e11b));
    NextRound(51, Hash(0x641db2ce, 0x120731c5, 0xeebce4cd, 0xafab40b2, 0x2806e11b), 0x4ebf54de,
      Hash(0x3847ad66, 0x641db2ce, 0x4481cc71, 0xeebce4cd, 0xafab40b2));
    NextRound(52, Hash(0x3847ad66, 0x641db2ce, 0x4481cc71, 0xeebce4cd, 0xafab40b2), 0x3835b44b,
      Hash(0xe490436d, 0x3847ad66, 0x99076cb3, 0x4481cc71, 0xeebce4cd));
    NextRound(53, Hash(0xe490436d, 0x3847ad66, 0x99076cb3, 0x4481cc71, 0xeebce4cd), 0x0000f600,
      Hash(0x27e9f1d8, 0xe490436d, 0x8e11eb59, 0x99076cb3, 0x4481cc71));
    NextRound(54, Hash(0x27e9f1d8, 0xe490436d, 0x8e11eb59, 0x99076cb3, 0x4481cc71), 0x1e84c7a3,
      Hash(0x7b71f76d, 0x27e9f1d8, 0x792410db, 0x8e11eb59, 0x99076cb3));
    NextRound(55, Hash(0x7b71f76d, 0x27e9f1d8, 0x792410db, 0x8e11eb59, 0x99076cb3), 0x98e04d98,
      Hash(0x5e6456af, 0x7b71f76d, 0x09fa7c76, 0x792410db, 0x8e11eb59));
    NextRound(56, Hash(0x5e6456af, 0x7b71f76d, 0x09fa7c76, 0x792410db, 0x8e11eb59), 0x651d16a0,
      Hash(0xc846093f, 0x5e6456af, 0x5edc7ddb, 0x09fa7c76, 0x792410db));
    NextRound(57, Hash(0xc846093f, 0x5e6456af, 0x5edc7ddb, 0x09fa7c76, 0x792410db), 0x62658ca1,
      Hash(0xd262ff50, 0xc846093f, 0xd79915ab, 0x5edc7ddb, 0x09fa7c76));
    NextRound(58, Hash(0xd262ff50, 0xc846093f, 0xd79915ab, 0x5edc7ddb, 0x09fa7c76), 0x458544d6,
      Hash(0x09d785fd, 0xd262ff50, 0xf211824f, 0xd79915ab, 0x5edc7ddb));
    NextRound(59, Hash(0x09d785fd, 0xd262ff50, 0xf211824f, 0xd79915ab, 0x5edc7ddb), 0x44584cb7,
      Hash(0x3f52de5a, 0x09d785fd, 0x3498bfd4, 0xf211824f, 0xd79915ab));
  }

  lemma Rounds70()
    ensures |BLOCK| == 64
    ensures Rounds(INITIAL, BLOCK, 70) == Hash(0x3f2588c2, 0x497093c0, 0xde37534a, 0x030f7cad, 0x4405957e)
  {
    hide W, Rounds;
    Rounds60();
    Words56();
    Words64();
    NextRound(60, Hash(0x3f52de5a, 0x09d785fd, 0x3498bfd4, 0xf211824f, 0xd79915ab), 0x7ba06619,
      Hash(0xd756c147, 0x3f52de5a, 0x4275e17f, 0x3498bfd4, 0xf211824f));
    NextRound(61, Hash(0xd756c147, 0x3f52de5a, 0x4275e17f, 0x3498bfd4, 0xf211824f), 0x6380aea2,
      Hash(0x548c9cb2, 0xd756c147, 0x8fd4b796, 0x4275e17f, 0x3498bfd4));
    NextRound(62, Hash(0x548c9cb2, 0xd756c147, 0x8fd4b796, 0x4275e17f, 0x3498bfd4), 0x0ae55269,
      Hash(0xb66c020b, 0x548c9cb2, 0xf5d5b051, 0x8fd4b796, 0x4275e17f));
    NextRound(63, Hash(0xb66c020b, 0x548c9cb2, 0xf5d5b051, 0x8fd4b796, 0x4275e17f), 0x627b49a1,
      Hash(0x6b61c9e1, 0xb66c020b, 0x9523272c, 0xf5d5b051, 0x8fd4b796));
    NextRound(64, Hash(0x6b61c9e1, 0xb66c020b, 0x9523272c, 0xf5d5b051, 0x8fd4b796), 0x7cd45c9d,
      Hash(0x19dfa7ac, 0x6b61c9e1, 0xed9b0082, 0x9523272c, 0xf5d5b051));
    NextRound(65, Hash(0x19dfa7ac, 0x6b61c9e1, 0xed9b0082, 0x9523272c, 0xf5d5b051), 0x000f0000,
      Hash(0x101655f9, 0x19dfa7ac, 0x5ad87278, 0xed9b0082, 0x9523272c));
    NextRound(66, Hash(0x101655f9, 0x19dfa7ac, 0x5ad87278, 0xed9b0082, 0x9523272c), 0xfb50753a,
      Hash(0x0c3df2b4, 0x101655f9, 0x0677e9eb, 0x5ad87278, 0xed9b0082));
    NextRound(67, Hash(0x0c3df2b4, 0x101655f9, 0x0677e9eb, 0x5ad87278, 0xed9b0082), 0xec6765e8,
      Hash(0x78dd4d2b, 0x0c3df2b4, 0x4405957e, 0x0677e9eb, 0x5ad87278));
    NextRound(68, Hash(0x78dd4d2b, 0x0c3df2b4, 0x4405957e, 0x0677e9eb, 0x5ad87278), 0xba3c2be2,
      Hash(0x497093c0, 0x78dd4d2b, 0x030f7cad, 0x4405957e, 0x0677e9eb));
    NextRound(69, Hash(0x497093c0, 0x78dd4d2b, 0x030f7cad, 0x4405957e, 0x0677e9eb), 0x0060c000,
      Hash(0x3f2588c2, 0x497093c0, 0xde37534a, 0x030f7cad, 0x4405957e));
  }

  lemma Rounds80()
    ensures |BLOCK| == 64
    ensures Rounds(INITIAL, BLOCK, 80) == Hash(0x42541b35, 0x5738d5e1, 0x21834873, 0x681e6df6, 0xd8fdf6ad)
  {
    hide W, Rounds;
    Rounds70();
    Words64();
    Words72();
    NextRound(70, Hash(0x3f2588c2, 0x497093c0, 0xde37534a, 0x030f7cad, 0x4405957e), 0x3a37cd05,
      Hash(0xc199f8c7, 0x3f2588c2, 0x125c24f0, 0xde37534a, 0x030f7cad));
    NextRound(71, Hash(0xc199f8c7, 0x3f2588c2, 0x125c24f0, 0xde37534a, 0x030f7cad), 0x458546f4,
      Hash(0x39859de7, 0xc199f8c7, 0x8fc96230, 0x125c24f0, 0xde37534a));
    NextRound(72, Hash(0x39859de7, 0xc199f8c7, 0x8fc96230, 0x125c24f0, 0xde37534a), 0xb8599dd6,
      Hash(0xedb42de4, 0x39859de7, 0xf0667e31, 0x8fc96230, 0x125c24f0));
    NextRound(73, Hash(0xedb42de4, 0x39859de7, 0xf0667e31, 0x8fc96230, 0x125c24f0), 0x380a1a26,
      Hash(0x11793f6f, 0xedb42de4, 0xce616779, 0xf0667e31, 0x8fc96230));
    NextRound(74, Hash(0x11793f6f, 0xedb42de4, 0xce616779, 0xf0667e31, 0x8fc96230), 0x01e02203,
      Hash(0x5ee76897, 0x11793f6f, 0x3b6d0b79, 0xce616779, 0xf0667e31));
    NextRound(75, Hash(0x5ee76897, 0x11793f6f, 0x3b6d0b79, 0xce616779, 0xf0667e31), 0xe7cc3456,
      Hash(0x63f7dab7, 0x5ee76897, 0xc45e4fdb, 0x3b6d0b79, 0xce616779));
    NextRound(76, Hash(0x63f7dab7, 0x5ee76897, 0xc45e4fdb, 0x3b6d0b79, 0xce616779), 0xe6e60b69,
      Hash(0xa079b7d9, 0x63f7dab7, 0xd7b9da25, 0xc45e4fdb, 0x3b6d0b79));
    NextRound(77, Hash(0xa079b7d9, 0x63f7dab7, 0xd7b9da25, 0xc45e4fdb, 0x3b6d0b79), 0x00f60a00,
      Hash(0x860d21cc, 0xa079b7d9, 0xd8fdf6ad, 0xd7b9da25, 0xc45e4fdb));
    NextRound(78, Hash(0x860d21cc, 0xa079b7d9, 0xd8fdf6ad, 0xd7b9da25, 0xc45e4fdb), 0x5795ef4f,
      Hash(0x5738d5e1, 0x860d21cc, 0x681e6df6, 0xd8fdf6ad, 0xd7b9da25));
    NextRound(79, Hash(0x5738d5e1, 0x860d21cc, 0x681e6df6, 0xd8fdf6ad, 0xd7b9da25), 0x822e0879,
      Hash(0x42541b35, 0x5738d5e1, 0x21834873, 0x681e6df6, 0xd8fdf6ad));
  }

  lemma NoRounds()
    ensures |BLOCK| == 64 && Rounds(INITIAL, BLOCK, 0) == INITIAL
  {
    BlockIsPadded();
  }

  // ----- The digest -----

  lemma OneBlock()
    ensures |BLOCK| == 64 && HashBlocks(BLOCK) == Compress(INITIAL, BLOCK)
  {
    BlockIsPadded();
    NoBlocks();
    assert BLOCK[..0] == [] && BLOCK[0..] == BLOCK;
    hide Compress;
  }

  lemma NoBlocks()
    ensures HashBlocks([]) == INITIAL
  {
  }

  lemma Compressed()
    ensures |BLOCK| == 64
    ensures Compress(INITIAL, BLOCK) == Hash(0xa9993e36, 0x4706816a, 0xba3e2571, 0x7850c26c, 0x9cd0d89d)
  {
    hide Rounds;
    Rounds80();
  }

  /** The worked example of the standard: the digest of "abc" is
      a9993e36 4706816a ba3e2571 7850c26c 9cd0d89d. */
  lemma AbcDigest()
    ensures Sha1Of(ABC) == [0xa9, 0x99, 0x3e, 0x36, 0x47, 0x06, 0x81, 0x6a, 0xba, 0x3e,
                            0x25, 0x71, 0x78, 0x50, 0xc2, 0x6c, 0x9c, 0xd0, 0xd8, 0x9d]
  {
    hide HashBlocks, Compress, Pad;
    BlockIsPadded();
    OneBlock();
    Compressed();
  }
}
