/** The one-block example of the Secure Hash Standard, worked through: the message "abc". */
module Sha256Example {
  import opened Common
  import opened Sha256Spec

  const MESSAGE: seq<Byte> := [0x61, 0x62, 0x63]

  /** The words of the padded message. */
  ghost predicate IsBlock(b: seq<Byte>) {
    && |b| == 64
    && WordAt(b, 0) == 0x61626380 && (forall t | 0 < t < 15 :: WordAt(b, t) == 0) && WordAt(b, 15) == 24
  }

  lemma Schedule0(b: seq<Byte>)
    requires |b| == 64 && IsBlock(b)
    ensures W(b, 0) == 0x61626380 && W(b, 1) == 0x00000000 && W(b, 2) == 0x00000000 && W(b, 3) == 0x00000000
    ensures W(b, 4) == 0x00000000 && W(b, 5) == 0x00000000 && W(b, 6) == 0x00000000 && W(b, 7) == 0x00000000
    ensures W(b, 8) == 0x00000000 && W(b, 9) == 0x00000000 && W(b, 10) == 0x00000000 && W(b, 11) == 0x00000000
    ensures W(b, 12) == 0x00000000 && W(b, 13) == 0x00000000 && W(b, 14) == 0x00000000 && W(b, 15) == 0x00000018
  {
  }

  lemma Schedule16(b: seq<Byte>)
    requires |b| == 64 && IsBlock(b)
    ensures W(b, 16) == 0x61626380 && W(b, 17) == 0x000f0000 && W(b, 18) == 0x7da86405 && W(b, 19) == 0x600003c6
    ensures W(b, 20) == 0x3e9d7b78 && W(b, 21) == 0x0183fc00 && W(b, 22) == 0x12dcbfdb && W(b, 23) == 0xe2e2c38e
    ensures W(b, 24) == 0xc8215c1a && W(b, 25) == 0xb73679a2 && W(b, 26) == 0xe5bc3909 && W(b, 27) == 0x32663c5b
    ensures W(b, 28) == 0x9d209d67 && W(b, 29) == 0xec8726cb && W(b, 30) == 0x702138a4 && W(b, 31) == 0xd3b7973b
  {
    hide IsBlock;
    Schedule0(b);
  }

  lemma Schedule32(b: seq<Byte>)
    requires |b| == 64 && IsBlock(b)
    ensures W(b, 32) == 0x93f5997f && W(b, 33) == 0x3b68ba73 && W(b, 34) == 0xaff4ffc1 && W(b, 35) == 0xf10a5c62
    ensures W(b, 36) == 0x0a8b3996 && W(b, 37) == 0x72af830a && W(b, 38) == 0x9409e33e && W(b, 39) == 0x24641522
    ensures W(b, 40) == 0x9f47bf94 && W(b, 41) == 0xf0a64f5a && W(b, 42) == 0x3e246a79 && W(b, 43) == 0x27333ba3
    ensures W(b, 44) == 0x0c4763f2 && W(b, 45) == 0x840abf27 && W(b, 46) == 0x7a290d5d && W(b, 47) == 0x065c43da
  {
    hide IsBlock;
    Schedule16(b);
  }

  lemma Schedule48(b: seq<Byte>)
    requires |b| == 64 && IsBlock(b)
    ensures W(b, 48) == 0xfb3e89cb && W(b, 49) == 0xcc7617db && W(b, 50) == 0xb9e66c34 && W(b, 51) == 0xa9993667
    ensures W(b, 52) == 0x84badedd && W(b, 53) == 0xc21462bc && W(b, 54) == 0x1487472c && W(b, 55) == 0xb20f7a99
    ensures W(b, 56) == 0xef57b9cd && W(b, 57) == 0xebe6b238 && W(b, 58) == 0x9fe3095e && W(b, 59) == 0x78bc8d4b
    ensures W(b, 60) == 0xa43fcf15 && W(b, 61) == 0x668b2ff8 && W(b, 62) == 0xeeaba2cc && W(b, 63) == 0x12b1edeb
  {
    hide IsBlock;
    Schedule32(b);
  }

  /** The working variables after t rounds. */
  ghost predicate After(b: seq<Byte>, t: nat, r: Regs) {
    |b| == 64 && t <= 64 && Rounds(ToRegs(InitialHash()), b, t) == r
  }

  /** One round more, worked out addition by addition. */
  lemma Then(bl: seq<Byte>, t: nat, a: Word, b: Word, c: Word, d: Word, e: Word, f: Word, g: Word, h: Word,
             k: Word, w: Word, u: Word, v: Word, x: Word, t1: Word, t2: Word, a': Word, e': Word)
    requires After(bl, t, Regs(a, b, c, d, e, f, g, h)) && t < 64 && RoundConstant(t) == k && W(bl, t) == w
    requires Add(h, BigSigma1(e)) == u && Add(u, Ch(e, f, g)) == v && Add(v, k) == x && Add(x, w) == t1
    requires Add(BigSigma0(a), Maj(a, b, c)) == t2 && Add(t1, t2) == a' && Add(d, t1) == e'
    ensures After(bl, t + 1, Regs(a', a, b, c, e', e, f, g))
  {
    hide RoundConstants, RoundConstant, W, Add, BigSigma0, BigSigma1, Ch, Maj;
  }

  lemma Rounds0(b: seq<Byte>)
    requires |b| == 64 && IsBlock(b)
    ensures After(b, 8, Regs(0x85a07b5f, 0xe5030380, 0x2b4209f5, 0x04409a6a, 0x0c657a79, 0x9b27a401, 0x714260ad,
                            0x43ada245))
  {
    hide W, IsBlock, After;
    Start(b);
    Schedule0(b);
    Then(b, 0, 0x6a09e667, 0xbb67ae85, 0x3c6ef372, 0xa54ff53a, 0x510e527f, 0x9b05688c, 0x1f83d9ab, 0x5be0cd19,
      0x428a2f98, 0x61626380, 0x9167f444, 0xb0edbdd0, 0xf377ed68, 0x54da50e8, 0x08909ae5, 0x5d6aebcd, 0xfa2a4622);
    Then(b, 1, 0x5d6aebcd, 0x6a09e667, 0xbb67ae85, 0x3c6ef372, 0xfa2a4622, 0x510e527f, 0x9b05688c, 0x1f83d9ab,
      0x71374491, 0x00000000, 0x7a18d6d8, 0xcb284186, 0x3c5f8617, 0x3c5f8617, 0x1e0b5396, 0x5a6ad9ad, 0x78ce7989);
    Then(b, 2, 0x5a6ad9ad, 0x5d6aebcd, 0x6a09e667, 0xbb67ae85, 0x78ce7989, 0xfa2a4622, 0x510e527f, 0x9b05688c,
      0xb5c0fbcf, 0x00000000, 0x0ef64d21, 0x88008f97, 0x3dc18b66, 0x3dc18b66, 0x8b01bc41, 0xc8c347a7, 0xf92939eb);
    Then(b, 3, 0xc8c347a7, 0x5a6ad9ad, 0x5d6aebcd, 0x6a09e667, 0xf92939eb, 0x78ce7989, 0xfa2a4622, 0x510e527f,
      0xe9b5dba5, 0x00000000, 0x5715c6bb, 0xd1204644, 0xbad621e9, 0xbad621e9, 0x1a7ad47d, 0xd550f666, 0x24e00850);
    Then(b, 4, 0xd550f666, 0xc8c347a7, 0x5a6ad9ad, 0x5d6aebcd, 0x24e00850, 0xf92939eb, 0x78ce7989, 0xfa2a4622,
      0x3956c25b, 0x00000000, 0x34bd7a54, 0xacebf41d, 0xe642b678, 0xe642b678, 0x1dfde3f2, 0x04409a6a, 0x43ada245);
    Then(b, 5, 0x04409a6a, 0xd550f666, 0xc8c347a7, 0x5a6ad9ad, 0x43ada245, 0x24e00850, 0xf92939eb, 0x78ce7989,
      0x59f111f1, 0x00000000, 0x04465b25, 0xbce6750f, 0x16d78700, 0x16d78700, 0x146a82f5, 0x2b4209f5, 0x714260ad);
    Then(b, 6, 0x2b4209f5, 0x04409a6a, 0xd550f666, 0xc8c347a7, 0x714260ad, 0x43ada245, 0x24e00850, 0xf92939eb,
      0x923f82a4, 0x00000000, 0xfa84b161, 0x4024d9b6, 0xd2645c5a, 0xd2645c5a, 0x129ea726, 0xe5030380, 0x9b27a401);
    Then(b, 7, 0xe5030380, 0x2b4209f5, 0x04409a6a, 0xd550f666, 0x9b27a401, 0x714260ad, 0x43ada245, 0x24e00850,
      0xab1c5ed5, 0x00000000, 0x3a6e02f9, 0x8bf8253e, 0x37148413, 0x37148413, 0x4e8bf74c, 0x85a07b5f, 0x0c657a79);
  }

  lemma Rounds8(b: seq<Byte>)
    requires |b| == 64 && IsBlock(b)
    ensures After(b, 16, Regs(0xb0fa238e, 0xc0645fde, 0xd932eb16, 0x87912990, 0x07590dcd, 0x0b92f20c, 0x745a48de,
                            0x1e578218))
  {
    hide W, IsBlock, After;
    Rounds0(b);
    Schedule0(b);
    Then(b, 8, 0x85a07b5f, 0xe5030380, 0x2b4209f5, 0x04409a6a, 0x0c657a79, 0x9b27a401, 0x714260ad, 0x43ada245,
      0xd807aa98, 0x00000000, 0xdd5ac805, 0x5681e88a, 0x2e899322, 0x2e899322, 0x5f7b5997, 0x8e04ecb9, 0x32ca2d8c);
    Then(b, 9, 0x8e04ecb9, 0x85a07b5f, 0xe5030380, 0x2b4209f5, 0x32ca2d8c, 0x0c657a79, 0x9b27a401, 0x714260ad,
      0x12835b01, 0x00000000, 0x559e1897, 0xdf03c0a0, 0xf1871ba1, 0xf1871ba1, 0x9b0018ca, 0x8c87346b, 0x1cc92596);
    Then(b, 10, 0x8c87346b, 0x8e04ecb9, 0x85a07b5f, 0xe5030380, 0x1cc92596, 0x32ca2d8c, 0x0c657a79, 0x9b27a401,
      0x243185be, 0x00000000, 0x294a1abd, 0x3a369aaa, 0x5e682068, 0x5e682068, 0xe930838c, 0x4798a3f4, 0x436b23e8);
    Then(b, 11, 0x4798a3f4, 0x8c87346b, 0x8e04ecb9, 0x85a07b5f, 0x436b23e8, 0x1cc92596, 0x32ca2d8c, 0x0c657a79,
      0x550c7dc3, 0x00000000, 0x75f9b043, 0xa6c2ddc7, 0xfbcf5b8a, 0xfbcf5b8a, 0xfb506a1f, 0xf71fc5a9, 0x816fd6e9);
    Then(b, 12, 0xf71fc5a9, 0x4798a3f4, 0x8c87346b, 0x8e04ecb9, 0x816fd6e9, 0x436b23e8, 0x1cc92596, 0x32ca2d8c,
      0x72be5d74, 0x00000000, 0xffa913ed, 0x1d9437eb, 0x9052955f, 0x9052955f, 0xf73e9431, 0x87912990, 0x1e578218);
    Then(b, 13, 0x87912990, 0xf71fc5a9, 0x4798a3f4, 0x8c87346b, 0x1e578218, 0x816fd6e9, 0x436b23e8, 0x1cc92596,
      0x80deb1fe, 0x00000000, 0x2584be8d, 0x66f46275, 0xe7d31473, 0xe7d31473, 0xf15fd6a3, 0xd932eb16, 0x745a48de);
    Then(b, 14, 0xd932eb16, 0x87912990, 0xf71fc5a9, 0x4798a3f4, 0x745a48de, 0x1e578218, 0x816fd6e9, 0x436b23e8,
      0x9bdc06a7, 0x00000000, 0x92a6b138, 0x281e4771, 0xc3fa4e18, 0xc3fa4e18, 0xfc6a11c6, 0xc0645fde, 0x0b92f20c);
    Then(b, 15, 0xc0645fde, 0xd932eb16, 0x87912990, 0xf71fc5a9, 0x0b92f20c, 0x745a48de, 0x1e578218, 0x816fd6e9,
      0xc19bf174, 0x00000018, 0x3a46167c, 0x4e9d5698, 0x1039480c, 0x10394824, 0xa0c0db6a, 0xb0fa238e, 0x07590dcd);
  }

  lemma Rounds16(b: seq<Byte>)
    requires |b| == 64 && IsBlock(b)
    ensures After(b, 24, Regs(0xc5d53d8d, 0xa7a3623f, 0xc2606d6d, 0x9dc68b63, 0xaa47c347, 0x49f5114a, 0xe1257970,
                            0x8ada8930))
  {
    hide W, IsBlock, After;
    Rounds8(b);
    Schedule16(b);
    Then(b, 16, 0xb0fa238e, 0xc0645fde, 0xd932eb16, 0x87912990, 0x07590dcd, 0x0b92f20c, 0x745a48de, 0x1e578218,
      0xe49b69c1, 0x61626380, 0x3f92ebad, 0xb2a52bcb, 0x9740958c, 0xf8a2f90c, 0x2937a18f, 0x21da9a9b, 0x8034229c);
    Then(b, 17, 0x21da9a9b, 0xb0fa238e, 0xc0645fde, 0xd932eb16, 0x8034229c, 0x07590dcd, 0x0b92f20c, 0x745a48de,
      0xefbe4786, 0x000f0000, 0xafdbe12c, 0xbb6eb1b8, 0xab2cf93e, 0xab3bf93e, 0x17bfe093, 0xc2fbd9d1, 0x846ee454);
    Then(b, 18, 0xc2fbd9d1, 0x21da9a9b, 0xb0fa238e, 0xc0645fde, 0x846ee454, 0x8034229c, 0x07590dcd, 0x0b92f20c,
      0x0fc19dc6, 0x7da86405, 0xfb860e1b, 0x7ebb37b8, 0x8e7cd57e, 0x0c253983, 0xf252423c, 0xfe777bbf, 0xcc899961);
    Then(b, 19, 0xfe777bbf, 0xc2fbd9d1, 0x21da9a9b, 0xb0fa238e, 0xcc899961, 0x846ee454, 0x8034229c, 0x07590dcd,
      0x240ca1cc, 0x600003c6, 0xf720157d, 0x7b5cb859, 0x9f695a25, 0xff695deb, 0xe288ae48, 0xe1f20c33, 0xb0638179);
    Then(b, 20, 0xe1f20c33, 0xfe777bbf, 0xc2fbd9d1, 0x21da9a9b, 0xb0638179, 0xcc899961, 0x846ee454, 0x8034229c,
      0x2de92c6f, 0x3e9d7b78, 0x786b6149, 0xfc7946ae, 0x2a62731d, 0x68ffee95, 0x34c69cce, 0x9dc68b63, 0x8ada8930);
    Then(b, 21, 0x9dc68b63, 0xe1f20c33, 0xfe777bbf, 0xc2fbd9d1, 0x8ada8930, 0xb0638179, 0xcc899961, 0x846ee454,
      0x4a7484aa, 0x0183fc00, 0x0ded8d84, 0xd2311ef5, 0x1ca5a39f, 0x1e299f9f, 0xa436cdce, 0xc2606d6d, 0xe1257970);
    Then(b, 22, 0xc2606d6d, 0x9dc68b63, 0xe1f20c33, 0xfe777bbf, 0xe1257970, 0x8ada8930, 0xb0638179, 0xcc899961,
      0x5cb0a9dc, 0x12dcbfdb, 0x4bada29b, 0xdbf02bd4, 0x38a0d5b0, 0x4b7d958b, 0x5c25ccb4, 0xa7a3623f, 0x49f5114a);
    Then(b, 23, 0xa7a3623f, 0xc2606d6d, 0x9dc68b63, 0xe1f20c33, 0x49f5114a, 0xe1257970, 0x8ada8930, 0xb0638179,
      0x76f988da, 0xe2e2c38e, 0xab49d13c, 0x6e796aac, 0xe572f386, 0xc855b714, 0xfd7f8679, 0xc5d53d8d, 0xaa47c347);
  }

  lemma Rounds24(b: seq<Byte>)
    requires |b| == 64 && IsBlock(b)
    ensures After(b, 32, Regs(0x73b33bf5, 0xea992a22, 0xa0060b30, 0x363482c9, 0xba591112, 0x0109ab3a, 0xade79437,
                            0x6112a3b7))
  {
    hide W, IsBlock, After;
    Rounds16(b);
    Schedule16(b);
    Then(b, 24, 0xc5d53d8d, 0xa7a3623f, 0xc2606d6d, 0x9dc68b63, 0xaa47c347, 0x49f5114a, 0xe1257970, 0x8ada8930,
      0x983e5152, 0xc8215c1a, 0xe0987d50, 0x29fdb6c2, 0xc23c0814, 0x8a5d642e, 0x91cec40a, 0x1c2c2838, 0x2823ef91);
    Then(b, 25, 0x1c2c2838, 0xc5d53d8d, 0xa7a3623f, 0xc2606d6d, 0x2823ef91, 0xaa47c347, 0x49f5114a, 0xe1257970,
      0xa831c66d, 0xb73679a2, 0x8897bcc7, 0xf26f9012, 0x9aa1567f, 0x51d7d021, 0x7c10335c, 0xcde8037d, 0x14383d8e);
    Then(b, 26, 0xcde8037d, 0x1c2c2838, 0xc5d53d8d, 0xa7a3623f, 0x14383d8e, 0x2823ef91, 0xaa47c347, 0x49f5114a,
      0xb00327c8, 0xe5bc3909, 0xdf81b245, 0x89e9a206, 0x39ecc9ce, 0x1fa902d7, 0x9685c1e5, 0xb62ec4bc, 0xc74c6516);
    Then(b, 27, 0xb62ec4bc, 0xcde8037d, 0x1c2c2838, 0xc5d53d8d, 0xc74c6516, 0x14383d8e, 0x2823ef91, 0xaa47c347,
      0xbf597fc7, 0x32663c5b, 0x0a3f16c2, 0x366ac649, 0xf5c44610, 0x282a826b, 0x4fa8f2bd, 0x77d37528, 0xedffbff8);
    Then(b, 28, 0x77d37528, 0xb62ec4bc, 0xcde8037d, 0x1c2c2838, 0xedffbff8, 0xc74c6516, 0x14383d8e, 0x2823ef91,
      0xc6e00bf3, 0x9d209d67, 0x0b99ad0f, 0xe0e5d225, 0xa7c5de18, 0x44e67b7f, 0xf14e074a, 0x363482c9, 0x6112a3b7);
    Then(b, 29, 0x363482c9, 0x77d37528, 0xb62ec4bc, 0xcde8037d, 0x6112a3b7, 0xedffbff8, 0xc74c6516, 0x14383d8e,
      0xd5a79147, 0xec8726cb, 0x3671f0f8, 0x1dd0d8a8, 0xf37869ef, 0xdfff90ba, 0xc0067a76, 0xa0060b30, 0xade79437);
    Then(b, 30, 0xa0060b30, 0x363482c9, 0x77d37528, 0xb62ec4bc, 0xade79437, 0x6112a3b7, 0xedffbff8, 0xc74c6516,
      0x06ca6351, 0x702138a4, 0x72d49e8a, 0xd3ef4a89, 0xdab9adda, 0x4adae67e, 0x9fbe43a4, 0xea992a22, 0x0109ab3a);
    Then(b, 31, 0xea992a22, 0xa0060b30, 0x363482c9, 0x77d37528, 0x0109ab3a, 0xade79437, 0x6112a3b7, 0xedffbff8,
      0x14292967, 0xd3b7973b, 0xf9915a91, 0x5aa4db48, 0x6ece04af, 0x42859bea, 0x312da00b, 0x73b33bf5, 0xba591112);
  }

  lemma Rounds32(b: seq<Byte>)
    requires |b| == 64 && IsBlock(b)
    ensures After(b, 40, Regs(0x79ea687a, 0x6dc57a8a, 0x34df1604, 0x41a65cb1, 0x1efbc0a0, 0xf0781bc8, 0xa507a53d,
                            0x0772a26b))
  {
    hide W, IsBlock, After;
    Rounds24(b);
    Schedule32(b);
    Then(b, 32, 0x73b33bf5, 0xea992a22, 0xa0060b30, 0x363482c9, 0xba591112, 0x0109ab3a, 0xade79437, 0x6112a3b7,
      0x27b70a85, 0x93f5997f, 0xa54949f2, 0xaaf8cf29, 0xd2afd9ae, 0x66a5732d, 0x323bb1da, 0x98e12507, 0x9cd9f5f6);
    Then(b, 33, 0x98e12507, 0x73b33bf5, 0xea992a22, 0xa0060b30, 0x9cd9f5f6, 0xba591112, 0x0109ab3a, 0xade79437,
      0x2e1b2138, 0x3b68ba73, 0xb6419bde, 0x4f9ab6f8, 0x7db5d830, 0xb91e92a3, 0x4541bb52, 0xfe604df5, 0x59249dd3);
    Then(b, 34, 0xfe604df5, 0x98e12507, 0x73b33bf5, 0xea992a22, 0x59249dd3, 0x9cd9f5f6, 0xba591112, 0x0109ab3a,
      0x4d2c6dfc, 0xaff4ffc1, 0x664b0a82, 0x20a4a054, 0x6dd10e50, 0x1dc60e11, 0x8be1657b, 0xa9a7738c, 0x085f3833);
    Then(b, 35, 0xa9a7738c, 0xfe604df5, 0x98e12507, 0x73b33bf5, 0x085f3833, 0x59249dd3, 0x9cd9f5f6, 0xba591112,
      0x53380d13, 0xf10a5c62, 0xa0357f95, 0x3cba5d6c, 0x8ff26a7f, 0x80fcc6e1, 0xe4a40903, 0x65a0cfe4, 0xf4b002d6);
    Then(b, 36, 0x65a0cfe4, 0xa9a7738c, 0xfe604df5, 0x98e12507, 0xf4b002d6, 0x085f3833, 0x59249dd3, 0x9cd9f5f6,
      0x650a7354, 0x0a8b3996, 0xf5e73367, 0xfefbd07a, 0x640643ce, 0x6e917d64, 0xd314df4d, 0x41a65cb1, 0x0772a26b);
    Then(b, 37, 0x41a65cb1, 0x65a0cfe4, 0xa9a7738c, 0xfe604df5, 0x0772a26b, 0xf4b002d6, 0x085f3833, 0x59249dd3,
      0x766a0abb, 0x72af830a, 0xb150af31, 0xbd8dc983, 0x33f7d43e, 0xa6a75748, 0x8e37bebc, 0x34df1604, 0xa507a53d);
    Then(b, 38, 0x34df1604, 0x41a65cb1, 0x65a0cfe4, 0xa9a7738c, 0xa507a53d, 0x0772a26b, 0xf4b002d6, 0x085f3833,
      0x81c2c92e, 0x9409e33e, 0xdb5158e5, 0x3103fbd0, 0xb2c6c4fe, 0x46d0a83c, 0x26f4d24e, 0x6dc57a8a, 0xf0781bc8);
    Then(b, 39, 0x6dc57a8a, 0x34df1604, 0x41a65cb1, 0x65a0cfe4, 0xf0781bc8, 0xa507a53d, 0x0772a26b, 0xf4b002d6,
      0x92722c85, 0x24641522, 0x5b820dea, 0x0284af15, 0x94f6db9a, 0xb95af0bc, 0xc08f77be, 0x79ea687a, 0x1efbc0a0);
  }

  lemma Rounds40(b: seq<Byte>)
    requires |b| == 64 && IsBlock(b)
    ensures After(b, 48, Regs(0x4172328d, 0xa14c14b0, 0x72ab4b91, 0x26628815, 0xfecf0bc6, 0xd57b94a9, 0xb7755da1,
                            0xa80f11f0))
  {
    hide W, IsBlock, After;
    Rounds32(b);
    Schedule32(b);
    Then(b, 40, 0x79ea687a, 0x6dc57a8a, 0x34df1604, 0x41a65cb1, 0x1efbc0a0, 0xf0781bc8, 0xa507a53d, 0x0772a26b,
      0xa2bfe8a1, 0x9f47bf94, 0xf10b02e0, 0xa287287d, 0x4547111e, 0xe48ed0b2, 0xf1d836b4, 0xd6670766, 0x26352d63);
    Then(b, 41, 0xd6670766, 0x79ea687a, 0x6dc57a8a, 0x34df1604, 0x26352d63, 0x1efbc0a0, 0xf0781bc8, 0xa507a53d,
      0xa81a664b, 0xf0a64f5a, 0xdf7248c0, 0xb5eb5b68, 0x5e05c1b3, 0x4eac110d, 0x909a5422, 0xdf46652f, 0x838b2711);
    Then(b, 42, 0xdf46652f, 0xd6670766, 0x79ea687a, 0x6dc57a8a, 0x838b2711, 0x26352d63, 0x1efbc0a0, 0xf0781bc8,
      0xc24b8b70, 0x3e246a79, 0x5225f101, 0x7097d6a2, 0x32e36212, 0x7107cc8b, 0xa6a24173, 0x17aa0dfe, 0xdecd4715);
    Then(b, 43, 0x17aa0dfe, 0xdf46652f, 0xd6670766, 0x79ea687a, 0xdecd4715, 0x838b2711, 0x26352d63, 0x1efbc0a0,
      0xc76c51a3, 0x27333ba3, 0xf25f26fb, 0x9518566e, 0x5c84a811, 0x83b7e3b4, 0x1993cbdf, 0x9d4baf93, 0xfda24c2e);
    Then(b, 44, 0x9d4baf93, 0x17aa0dfe, 0xdf46652f, 0xd6670766, 0xfda24c2e, 0xdecd4715, 0x838b2711, 0x26352d63,
      0xd192e819, 0x0c4763f2, 0x1544576a, 0xf3cdbe7f, 0xc560a698, 0xd1a80a8a, 0x54ba7d8b, 0x26628815, 0xa80f11f0);
    Then(b, 45, 0x26628815, 0x9d4baf93, 0x17aa0dfe, 0xdf46652f, 0xa80f11f0, 0xfda24c2e, 0xdecd4715, 0x838b2711,
      0xd6990624, 0x840abf27, 0x7ec8ed02, 0x7d8b3327, 0x5424394b, 0xd82ef872, 0x9a7c531f, 0x72ab4b91, 0xb7755da1);
    Then(b, 46, 0x72ab4b91, 0x26628815, 0x9d4baf93, 0x17aa0dfe, 0xb7755da1, 0xa80f11f0, 0xfda24c2e, 0xdecd4715,
      0xf40e3585, 0x7a290d5d, 0x6713321b, 0x4f9a43c9, 0x43a8794e, 0xbdd186ab, 0xe37a8e05, 0xa14c14b0, 0xd57b94a9);
    Then(b, 47, 0xa14c14b0, 0x72ab4b91, 0x26628815, 0x9d4baf93, 0xd57b94a9, 0xb7755da1, 0xa80f11f0, 0xfda24c2e,
      0x106aa070, 0x065c43da, 0x8d4761f8, 0x4abc77e9, 0x5b271859, 0x61835c33, 0xdfeed65a, 0x4172328d, 0xfecf0bc6);
  }

  lemma Rounds48(b: seq<Byte>)
    requires |b| == 64 && IsBlock(b)
    ensures After(b, 56, Regs(0x38cc9913, 0x3ec45cdb, 0xf5702fdb, 0x101fd28f, 0x54cb266b, 0xe50e1b4f, 0x9f4787c3,
                            0x529e7d00))
  {
    hide W, IsBlock, After;
    Rounds40(b);
    Schedule48(b);
    Then(b, 48, 0x4172328d, 0xa14c14b0, 0x72ab4b91, 0x26628815, 0xfecf0bc6, 0xd57b94a9, 0xb7755da1, 0xa80f11f0,
      0x19a4c116, 0xfb3e89cb, 0xacb018a1, 0x822b6d42, 0x9bd02e58, 0x970eb823, 0x6e66c4c8, 0x05757ceb, 0xbd714038);
    Then(b, 49, 0x05757ceb, 0x4172328d, 0xa14c14b0, 0x72ab4b91, 0xbd714038, 0xfecf0bc6, 0xd57b94a9, 0xb7755da1,
      0x1e376c08, 0xcc7617db, 0x14b7d517, 0x11036998, 0x2f3ad5a0, 0xfbb0ed7b, 0xf56b0d2d, 0xf11bfaa8, 0x6e5c390c);
    Then(b, 50, 0xf11bfaa8, 0x05757ceb, 0x4172328d, 0xa14c14b0, 0x6e5c390c, 0xbd714038, 0xfecf0bc6, 0xd57b94a9,
      0x2748774c, 0xb9e66c34, 0x13a3d1fd, 0xd076d4c7, 0xf7bf4c13, 0xb1a5b847, 0xc85f505a, 0x7a0508a1, 0x52f1ccf7);
    Then(b, 51, 0x7a0508a1, 0xf11bfaa8, 0x05757ceb, 0x4172328d, 0x52f1ccf7, 0x6e5c390c, 0xbd714038, 0xfecf0bc6,
      0x34b0bcb5, 0xa9993667, 0x3a16ee69, 0x2966f675, 0x5e17b32a, 0x07b0e991, 0x80bd9091, 0x886e7a22, 0x49231c1e);
    Then(b, 52, 0x886e7a22, 0x7a0508a1, 0xf11bfaa8, 0x05757ceb, 0x49231c1e, 0x52f1ccf7, 0x6e5c390c, 0xbd714038,
      0x391c0cb3, 0x84badedd, 0x28d4e76f, 0x8f521485, 0xc86e2138, 0x4d290015, 0xc2f6d27a, 0x101fd28f, 0x529e7d00);
    Then(b, 53, 0x101fd28f, 0x886e7a22, 0x7a0508a1, 0xf11bfaa8, 0x529e7d00, 0x49231c1e, 0x52f1ccf7, 0x6e5c390c,
      0x4ed8aa4a, 0xc21462bc, 0x5cdae31e, 0x9d3e8015, 0xec172a5f, 0xae2b8d1b, 0x4744a2c0, 0xf5702fdb, 0x9f4787c3);
    Then(b, 54, 0xf5702fdb, 0x101fd28f, 0x886e7a22, 0x7a0508a1, 0x9f4787c3, 0x529e7d00, 0x49231c1e, 0x52f1ccf7,
      0x5b9cca4f, 0x1487472c, 0xa8bee417, 0xfae50133, 0x5681cb82, 0x6b0912ae, 0xd3bb4a2d, 0x3ec45cdb, 0xe50e1b4f);
    Then(b, 55, 0x3ec45cdb, 0xf5702fdb, 0x101fd28f, 0x886e7a22, 0xe50e1b4f, 0x9f4787c3, 0x529e7d00, 0x49231c1e,
      0x682e6ff3, 0xb20f7a99, 0x1a885a7a, 0xb21ec1bd, 0x1a4d31b0, 0xcc5cac49, 0x6c6fecca, 0x38cc9913, 0x54cb266b);
  }

  lemma Rounds56(b: seq<Byte>)
    requires |b| == 64 && IsBlock(b)
    ensures After(b, 64, Regs(0x506e3058, 0xd39a2165, 0x04d24d6c, 0xb85e2ce9, 0x5ef50f24, 0xfb121210, 0x948d25b6,
                            0x961f4894))
  {
    hide W, IsBlock, After;
    Rounds48(b);
    Schedule48(b);
    Then(b, 56, 0x38cc9913, 0x3ec45cdb, 0xf5702fdb, 0x101fd28f, 0x54cb266b, 0xe50e1b4f, 0x9f4787c3, 0x529e7d00,
      0x748f82ee, 0xef57b9cd, 0x5848fd57, 0x27578122, 0x9be70410, 0x8b3ebddd, 0x7192ca9e, 0xfcd1887b, 0x9b5e906c);
    Then(b, 57, 0xfcd1887b, 0x38cc9913, 0x3ec45cdb, 0xf5702fdb, 0x9b5e906c, 0x54cb266b, 0xe50e1b4f, 0x9f4787c3,
      0x78a5636f, 0xebe6b238, 0xaffdafa1, 0x2447bb0c, 0x9ced1e7b, 0x88d3d0b3, 0x378f03bc, 0xc062d46f, 0x7e44008e);
    Then(b, 58, 0xc062d46f, 0xfcd1887b, 0x38cc9913, 0x3ec45cdb, 0x7e44008e, 0x9b5e906c, 0x54cb266b, 0xe50e1b4f,
      0x84c87814, 0x9fe3095e, 0xef44bb0c, 0x0a13e179, 0x8edc598d, 0x2ebf62eb, 0xd0f7a187, 0xffb70472, 0x6d83bfc6);
    Then(b, 59, 0xffb70472, 0xc062d46f, 0xfcd1887b, 0x38cc9913, 0x6d83bfc6, 0x7e44008e, 0x9b5e906c, 0x54cb266b,
      0x8cc70208, 0x78bc8d4b, 0x756f8429, 0x73cb84d7, 0x009286df, 0x794f142a, 0x3d5f7bd5, 0xb6ae8fff, 0xb21bad3d);
    Then(b, 60, 0xb6ae8fff, 0xffb70472, 0xc062d46f, 0xfcd1887b, 0xb21bad3d, 0x6d83bfc6, 0x7e44008e, 0x9b5e906c,
      0x90befffa, 0xa43fcf15, 0xf8074384, 0x644ef10a, 0xf50df104, 0x994dc019, 0x1f106cd0, 0xb85e2ce9, 0x961f4894);
    Then(b, 61, 0xb85e2ce9, 0xb6ae8fff, 0xffb70472, 0xc062d46f, 0x961f4894, 0xb21bad3d, 0x6d83bfc6, 0x7e44008e,
      0xa4506ceb, 0x668b2ff8, 0xcdb2f50e, 0xc94eb464, 0x6d9f214f, 0xd42a5147, 0x30a7fc25, 0x04d24d6c, 0x948d25b6);
    Then(b, 62, 0x04d24d6c, 0xb85e2ce9, 0xb6ae8fff, 0xffb70472, 0x948d25b6, 0x961f4894, 0xb21bad3d, 0x6d83bfc6,
      0xbef9a3f7, 0xeeaba2cc, 0x97963e3e, 0x4db5c6db, 0x0caf6ad2, 0xfb5b0d9e, 0xd83f13c7, 0xd39a2165, 0xfb121210);
    Then(b, 63, 0xd39a2165, 0x04d24d6c, 0xb85e2ce9, 0xb6ae8fff, 0xfb121210, 0x948d25b6, 0x961f4894, 0xb21bad3d,
      0xc67178f2, 0x12b1edeb, 0x3b15cfb4, 0xcf231848, 0x9594913a, 0xa8467f25, 0xa827b133, 0x506e3058, 0x5ef50f24);
  }

  lemma Start(b: seq<Byte>)
    requires |b| == 64
    ensures After(b, 0, Regs(0x6a09e667, 0xbb67ae85, 0x3c6ef372, 0xa54ff53a, 0x510e527f, 0x9b05688c, 0x1f83d9ab,
                            0x5be0cd19))
  {}

  /** The message with its padding: a single block. */
  lemma Padded()
    ensures |Pad(MESSAGE)| == 64 && IsBlock(Pad(MESSAGE))
  {
    var p := Pad(MESSAGE);
    assert ZeroPad(3) == 52 && BitLength(3) == 24;
    LengthOf24();
    assert p[0] == 0x61 && p[1] == 0x62 && p[2] == 0x63 && p[3] == 0x80;
    assert forall i | 4 <= i < 63 :: p[i] == 0;
    assert p[63] == 24;
    assert forall t | 0 < t < 15 :: WordAt(p, t) == 0;
  }

  lemma LengthOf24()
    ensures forall i | 0 <= i < 8 :: LengthBytes(24)[i] == if i == 7 then 24 else 0
  {
    var d := Digits(24, 8);
    assert d[7] == 24 && Digits(0, 7) == d[..7];
    ZeroDigits(7);
  }

  lemma {:induction false} ZeroDigits(n: nat)
    ensures forall i | 0 <= i < n :: Digits(0, n)[i] == 0
  {
    if n > 0 {
      ZeroDigits(n - 1);
    }
  }

  /** The hash value, as the standard gives it, and the digest that spells it. */
  lemma KnownAnswer()
    ensures HashBlocks(Pad(MESSAGE)) ==
            [0xba7816bf, 0x8f01cfea, 0x414140de, 0x5dae2223,
             0xb00361a3, 0x96177a9c, 0xb410ff61, 0xf20015ad]
    ensures Spelt(Digest(MESSAGE), HashBlocks(Pad(MESSAGE)))
  {
    hide W, Rounds, IsBlock, WordAt, Pad;
    Padded();
    var p := Pad(MESSAGE);
    Rounds56(p);
    assert p[..0] == [] && p[0..] == p;
    OutputSpells(HashBlocks(p));
  }
}
