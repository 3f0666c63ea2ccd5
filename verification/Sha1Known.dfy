/** The first of the test vectors that sha1.c quotes from FIPS PUB 180-1, worked out round by round: the digest of
    "abc". It fixes the constants, the rotations and the byte order of `Sha1` together. */
module Sha1Known {
  import opened Sha1

  /** "abc", padded to one block. */
  const BLOCK: seq<bv8> := [0x61, 0x62, 0x63, 0x80] + seq(59, _ => 0) + [24]

  lemma BlockIsPadded()
    ensures Pad([0x61, 0x62, 0x63]) == BLOCK
  {
    assert NumberBytes(0) == [0, 0, 0, 0] && NumberBytes(24) == [0, 0, 0, 24];
    assert ZeroCount(3) == 52;
  }

  /** Sixteen successive words of the schedule. */
  ghost predicate Window(block: seq<bv8>, t: nat, w: seq<bv32>)
    requires |block| == 64
  {
    && |w| == 16
    && W(block, t) == w[0] && W(block, t + 1) == w[1] && W(block, t + 2) == w[2] && W(block, t + 3) == w[3]
    && W(block, t + 4) == w[4] && W(block, t + 5) == w[5] && W(block, t + 6) == w[6] && W(block, t + 7) == w[7]
    && W(block, t + 8) == w[8] && W(block, t + 9) == w[9] && W(block, t + 10) == w[10] && W(block, t + 11) == w[11]
    && W(block, t + 12) == w[12] && W(block, t + 13) == w[13] && W(block, t + 14) == w[14] && W(block, t + 15) == w[15]
  }

  const SCHEDULE0: seq<bv32> := [
    0x61626380, 0x00000000, 0x00000000, 0x00000000, 0x00000000, 0x00000000, 0x00000000, 0x00000000,
    0x00000000, 0x00000000, 0x00000000, 0x00000000, 0x00000000, 0x00000000, 0x00000000, 0x00000018
  ]

  const SCHEDULE16: seq<bv32> := [
    0xC2C4C700, 0x00000000, 0x00000030, 0x85898E01, 0x00000000, 0x00000060, 0x0B131C03, 0x00000030,
    0x85898EC1, 0x16263806, 0x00000000, 0x00000180, 0x2C4C700C, 0x000000F0, 0x93AFB507, 0x5898E048
  ]

  const SCHEDULE32: seq<bv32> := [
    0x8E9A9202, 0x00000600, 0xB131C0F0, 0x16263BC6, 0x4EBED41E, 0x626380A1, 0x16263806, 0x000018C0,
    0xD2E138C4, 0x00000F00, 0x3AFB5079, 0x898E04E5, 0xE2BA3C2B, 0x000060C0, 0x053A37CD, 0x74458547
  ]

  const SCHEDULE48: seq<bv32> := [
    0xDA9415ED, 0x26380A16, 0x626383A1, 0x4EBF54DE, 0x3835B44B, 0x0000F600, 0x1E84C7A3, 0x98E04D98,
    0x651D16A0, 0x62658CA1, 0x458544D6, 0x44584CB7, 0x7BA06619, 0x6380AEA2, 0x0AE55269, 0x627B49A1
  ]

  const SCHEDULE64: seq<bv32> := [
    0x7CD45C9D, 0x000F0000, 0xFB50753A, 0xEC6765E8, 0xBA3C2BE2, 0x0060C000, 0x3A37CD05, 0x458546F4,
    0xB8599DD6, 0x380A1A26, 0x01E02203, 0xE7CC3456, 0xE6E60B69, 0x00F60A00, 0x5795EF4F, 0x822E0879
  ]

  lemma MiddleWord(i: nat)
    requires 1 <= i < 15
    ensures W(BLOCK, i) == 0
  {
    assert BLOCK[4 * i] == BLOCK[4 * i + 1] == BLOCK[4 * i + 2] == BLOCK[4 * i + 3] == 0;
  }

  lemma OuterWords()
    ensures W(BLOCK, 0) == 0x61626380 && W(BLOCK, 15) == 24
  {
    assert BLOCK[0] == 0x61 && BLOCK[60] == BLOCK[61] == BLOCK[62] == 0;
  }

  lemma FirstWords()
    ensures Window(BLOCK, 0, SCHEDULE0)
  {
    hide W;
    OuterWords();
    forall i | 1 <= i < 15 ensures W(BLOCK, i) == 0 { MiddleWord(i); }
  }

  /** One round with a known word, whose new value is a. */
  lemma Play(block: seq<bv8>, t: nat, v: Words, w: bv32, a: bv32) returns (v': Words)
    requires |block| == 64 && Rounds(INITIAL, block, t) == v && W(block, t) == w
    requires Sum(Rol5(v.a), F(t, v.b, v.c, v.d), v.e, K(t), w) == a
    ensures v' == Words(a, v.a, Rol30(v.b), v.c, v.d) == Rounds(INITIAL, block, t + 1)
  {
    v' := Words(a, v.a, Rol30(v.b), v.c, v.d);
  }

  lemma Words16To31()
    requires Window(BLOCK, 0, SCHEDULE0)
    ensures Window(BLOCK, 16, SCHEDULE16)
  {
    hide Word;
    assert W(BLOCK, 16) == 0xC2C4C700 && W(BLOCK, 17) == 0x00000000
      && W(BLOCK, 18) == 0x00000030 && W(BLOCK, 19) == 0x85898E01;
    assert W(BLOCK, 20) == 0x00000000 && W(BLOCK, 21) == 0x00000060
      && W(BLOCK, 22) == 0x0B131C03 && W(BLOCK, 23) == 0x00000030;
    assert W(BLOCK, 24) == 0x85898EC1 && W(BLOCK, 25) == 0x16263806
      && W(BLOCK, 26) == 0x00000000 && W(BLOCK, 27) == 0x00000180;
    assert W(BLOCK, 28) == 0x2C4C700C && W(BLOCK, 29) == 0x000000F0
      && W(BLOCK, 30) == 0x93AFB507 && W(BLOCK, 31) == 0x5898E048;
  }

  lemma Words32To47()
    requires Window(BLOCK, 16, SCHEDULE16)
    ensures Window(BLOCK, 32, SCHEDULE32)
  {
    hide Word;
    assert W(BLOCK, 32) == 0x8E9A9202 && W(BLOCK, 33) == 0x00000600
      && W(BLOCK, 34) == 0xB131C0F0 && W(BLOCK, 35) == 0x16263BC6;
    assert W(BLOCK, 36) == 0x4EBED41E && W(BLOCK, 37) == 0x626380A1
      && W(BLOCK, 38) == 0x16263806 && W(BLOCK, 39) == 0x000018C0;
    assert W(BLOCK, 40) == 0xD2E138C4 && W(BLOCK, 41) == 0x00000F00
      && W(BLOCK, 42) == 0x3AFB5079 && W(BLOCK, 43) == 0x898E04E5;
    assert W(BLOCK, 44) == 0xE2BA3C2B && W(BLOCK, 45) == 0x000060C0
      && W(BLOCK, 46) == 0x053A37CD && W(BLOCK, 47) == 0x74458547;
  }

  lemma Words48To63()
    requires Window(BLOCK, 32, SCHEDULE32)
    ensures Window(BLOCK, 48, SCHEDULE48)
  {
    hide Word;
    assert W(BLOCK, 48) == 0xDA9415ED && W(BLOCK, 49) == 0x26380A16
      && W(BLOCK, 50) == 0x626383A1 && W(BLOCK, 51) == 0x4EBF54DE;
    assert W(BLOCK, 52) == 0x3835B44B && W(BLOCK, 53) == 0x0000F600
      && W(BLOCK, 54) == 0x1E84C7A3 && W(BLOCK, 55) == 0x98E04D98;
    assert W(BLOCK, 56) == 0x651D16A0 && W(BLOCK, 57) == 0x62658CA1
      && W(BLOCK, 58) == 0x458544D6 && W(BLOCK, 59) == 0x44584CB7;
    assert W(BLOCK, 60) == 0x7BA06619 && W(BLOCK, 61) == 0x6380AEA2
      && W(BLOCK, 62) == 0x0AE55269 && W(BLOCK, 63) == 0x627B49A1;
  }

  lemma Words64To79()
    requires Window(BLOCK, 48, SCHEDULE48)
    ensures Window(BLOCK, 64, SCHEDULE64)
  {
    hide Word;
    assert W(BLOCK, 64) == 0x7CD45C9D && W(BLOCK, 65) == 0x000F0000
      && W(BLOCK, 66) == 0xFB50753A && W(BLOCK, 67) == 0xEC6765E8;
    assert W(BLOCK, 68) == 0xBA3C2BE2 && W(BLOCK, 69) == 0x0060C000
      && W(BLOCK, 70) == 0x3A37CD05 && W(BLOCK, 71) == 0x458546F4;
    assert W(BLOCK, 72) == 0xB8599DD6 && W(BLOCK, 73) == 0x380A1A26
      && W(BLOCK, 74) == 0x01E02203 && W(BLOCK, 75) == 0xE7CC3456;
    assert W(BLOCK, 76) == 0xE6E60B69 && W(BLOCK, 77) == 0x00F60A00
      && W(BLOCK, 78) == 0x5795EF4F && W(BLOCK, 79) == 0x822E0879;
  }

  lemma Rounds0To15()
    requires Window(BLOCK, 0, SCHEDULE0)
    ensures Rounds(INITIAL, BLOCK, 16) == Words(0x20BDD62F, 0x196BEE77, 0x644A3DA5, 0x1181ED99, 0x18C623F9)
  {
    hide W;
    var v := Words(0x67452301, 0xEFCDAB89, 0x98BADCFE, 0x10325476, 0xC3D2E1F0);
    v := Play(BLOCK, 0, v, SCHEDULE0[0], 0x0116FC33);
    v := Play(BLOCK, 1, v, SCHEDULE0[1], 0x8990536D);
    v := Play(BLOCK, 2, v, SCHEDULE0[2], 0xA1390F08);
    v := Play(BLOCK, 3, v, SCHEDULE0[3], 0xCDD8E11B);
    v := Play(BLOCK, 4, v, SCHEDULE0[4], 0xCFD499DE);
    v := Play(BLOCK, 5, v, SCHEDULE0[5], 0x3FC7CA40);
    v := Play(BLOCK, 6, v, SCHEDULE0[6], 0x993E30C1);
    v := Play(BLOCK, 7, v, SCHEDULE0[7], 0x9E8C07D4);
    v := Play(BLOCK, 8, v, SCHEDULE0[8], 0x4B6AE328);
    v := Play(BLOCK, 9, v, SCHEDULE0[9], 0x8351F929);
    v := Play(BLOCK, 10, v, SCHEDULE0[10], 0xFBDA9E89);
    v := Play(BLOCK, 11, v, SCHEDULE0[11], 0x63188FE4);
    v := Play(BLOCK, 12, v, SCHEDULE0[12], 0x4607B664);
    v := Play(BLOCK, 13, v, SCHEDULE0[13], 0x9128F695);
    v := Play(BLOCK, 14, v, SCHEDULE0[14], 0x196BEE77);
    v := Play(BLOCK, 15, v, SCHEDULE0[15], 0x20BDD62F);
  }

  lemma Rounds16To31()
    requires Window(BLOCK, 16, SCHEDULE16)
    requires Rounds(INITIAL, BLOCK, 16) == Words(0x20BDD62F, 0x196BEE77, 0x644A3DA5, 0x1181ED99, 0x18C623F9)
    ensures Rounds(INITIAL, BLOCK, 32) == Words(0x3B845D33, 0x1267B407, 0x717EEBD7, 0xA0DC2D4B, 0xD2AA1365)
  {
    hide Rounds;
    hide W;
    var v := Words(0x20BDD62F, 0x196BEE77, 0x644A3DA5, 0x1181ED99, 0x18C623F9);
    v := Play(BLOCK, 16, v, SCHEDULE16[0], 0x4E925823);
    v := Play(BLOCK, 17, v, SCHEDULE16[1], 0x82AA6728);
    v := Play(BLOCK, 18, v, SCHEDULE16[2], 0xDC64901D);
    v := Play(BLOCK, 19, v, SCHEDULE16[3], 0xFD9E1D7D);
    v := Play(BLOCK, 20, v, SCHEDULE16[4], 0x1A37B0CA);
    v := Play(BLOCK, 21, v, SCHEDULE16[5], 0x33A23BFC);
    v := Play(BLOCK, 22, v, SCHEDULE16[6], 0x21283486);
    v := Play(BLOCK, 23, v, SCHEDULE16[7], 0xD541F12D);
    v := Play(BLOCK, 24, v, SCHEDULE16[8], 0xC7567DC6);
    v := Play(BLOCK, 25, v, SCHEDULE16[9], 0x48413BA4);
    v := Play(BLOCK, 26, v, SCHEDULE16[10], 0xBE35FBD5);
    v := Play(BLOCK, 27, v, SCHEDULE16[11], 0x4AA84D97);
    v := Play(BLOCK, 28, v, SCHEDULE16[12], 0x8370B52E);
    v := Play(BLOCK, 29, v, SCHEDULE16[13], 0xC5FBAF5D);
    v := Play(BLOCK, 30, v, SCHEDULE16[14], 0x1267B407);
    v := Play(BLOCK, 31, v, SCHEDULE16[15], 0x3B845D33);
  }

  lemma Rounds32To47()
    requires Window(BLOCK, 32, SCHEDULE32)
    requires Rounds(INITIAL, BLOCK, 32) == Words(0x3B845D33, 0x1267B407, 0x717EEBD7, 0xA0DC2D4B, 0xD2AA1365)
    ensures Rounds(INITIAL, BLOCK, 48) == Words(0xBEAD02CA, 0xA01B846C, 0x8714787C, 0x503CA382, 0xFB86C6AB)
  {
    hide Rounds;
    hide W;
    var v := Words(0x3B845D33, 0x1267B407, 0x717EEBD7, 0xA0DC2D4B, 0xD2AA1365);
    v := Play(BLOCK, 32, v, SCHEDULE32[0], 0x046FAA0A);
    v := Play(BLOCK, 33, v, SCHEDULE32[1], 0x2C0EBC11);
    v := Play(BLOCK, 34, v, SCHEDULE32[2], 0x21796AD4);
    v := Play(BLOCK, 35, v, SCHEDULE32[3], 0xDCBBB0CB);
    v := Play(BLOCK, 36, v, SCHEDULE32[4], 0x0F511FD8);
    v := Play(BLOCK, 37, v, SCHEDULE32[5], 0xDC63973F);
    v := Play(BLOCK, 38, v, SCHEDULE32[6], 0x4C986405);
    v := Play(BLOCK, 39, v, SCHEDULE32[7], 0x32DE1CBA);
    v := Play(BLOCK, 40, v, SCHEDULE32[8], 0xFC87DEDF);
    v := Play(BLOCK, 41, v, SCHEDULE32[9], 0x970A0D5C);
    v := Play(BLOCK, 42, v, SCHEDULE32[10], 0x7F193DC5);
    v := Play(BLOCK, 43, v, SCHEDULE32[11], 0xEE1B1AAF);
    v := Play(BLOCK, 44, v, SCHEDULE32[12], 0x40F28E09);
    v := Play(BLOCK, 45, v, SCHEDULE32[13], 0x1C51E1F2);
    v := Play(BLOCK, 46, v, SCHEDULE32[14], 0xA01B846C);
    v := Play(BLOCK, 47, v, SCHEDULE32[15], 0xBEAD02CA);
  }

  lemma Rounds48To63()
    requires Window(BLOCK, 48, SCHEDULE48)
    requires Rounds(INITIAL, BLOCK, 48) == Words(0xBEAD02CA, 0xA01B846C, 0x8714787C, 0x503CA382, 0xFB86C6AB)
    ensures Rounds(INITIAL, BLOCK, 64) == Words(0x6B61C9E1, 0xB66C020B, 0x9523272C, 0xF5D5B051, 0x8FD4B796)
  {
    hide Rounds;
    hide W;
    var v := Words(0xBEAD02CA, 0xA01B846C, 0x8714787C, 0x503CA382, 0xFB86C6AB);
    v := Play(BLOCK, 48, v, SCHEDULE48[0], 0xBAF39337);
    v := Play(BLOCK, 49, v, SCHEDULE48[1], 0x120731C5);
    v := Play(BLOCK, 50, v, SCHEDULE48[2], 0x641DB2CE);
    v := Play(BLOCK, 51, v, SCHEDULE48[3], 0x3847AD66);
    v := Play(BLOCK, 52, v, SCHEDULE48[4], 0xE490436D);
    v := Play(BLOCK, 53, v, SCHEDULE48[5], 0x27E9F1D8);
    v := Play(BLOCK, 54, v, SCHEDULE48[6], 0x7B71F76D);
    v := Play(BLOCK, 55, v, SCHEDULE48[7], 0x5E6456AF);
    v := Play(BLOCK, 56, v, SCHEDULE48[8], 0xC846093F);
    v := Play(BLOCK, 57, v, SCHEDULE48[9], 0xD262FF50);
    v := Play(BLOCK, 58, v, SCHEDULE48[10], 0x09D785FD);
    v := Play(BLOCK, 59, v, SCHEDULE48[11], 0x3F52DE5A);
    v := Play(BLOCK, 60, v, SCHEDULE48[12], 0xD756C147);
    v := Play(BLOCK, 61, v, SCHEDULE48[13], 0x548C9CB2);
    v := Play(BLOCK, 62, v, SCHEDULE48[14], 0xB66C020B);
    v := Play(BLOCK, 63, v, SCHEDULE48[15], 0x6B61C9E1);
  }

  lemma Rounds64To79()
    requires Window(BLOCK, 64, SCHEDULE64)
    requires Rounds(INITIAL, BLOCK, 64) == Words(0x6B61C9E1, 0xB66C020B, 0x9523272C, 0xF5D5B051, 0x8FD4B796)
    ensures Rounds(INITIAL, BLOCK, 80) == Words(0x42541B35, 0x5738D5E1, 0x21834873, 0x681E6DF6, 0xD8FDF6AD)
  {
    hide Rounds;
    hide W;
    var v := Words(0x6B61C9E1, 0xB66C020B, 0x9523272C, 0xF5D5B051, 0x8FD4B796);
    v := Play(BLOCK, 64, v, SCHEDULE64[0], 0x19DFA7AC);
    v := Play(BLOCK, 65, v, SCHEDULE64[1], 0x101655F9);
    v := Play(BLOCK, 66, v, SCHEDULE64[2], 0x0C3DF2B4);
    v := Play(BLOCK, 67, v, SCHEDULE64[3], 0x78DD4D2B);
    v := Play(BLOCK, 68, v, SCHEDULE64[4], 0x497093C0);
    v := Play(BLOCK, 69, v, SCHEDULE64[5], 0x3F2588C2);
    v := Play(BLOCK, 70, v, SCHEDULE64[6], 0xC199F8C7);
    v := Play(BLOCK, 71, v, SCHEDULE64[7], 0x39859DE7);
    v := Play(BLOCK, 72, v, SCHEDULE64[8], 0xEDB42DE4);
    v := Play(BLOCK, 73, v, SCHEDULE64[9], 0x11793F6F);
    v := Play(BLOCK, 74, v, SCHEDULE64[10], 0x5EE76897);
    v := Play(BLOCK, 75, v, SCHEDULE64[11], 0x63F7DAB7);
    v := Play(BLOCK, 76, v, SCHEDULE64[12], 0xA079B7D9);
    v := Play(BLOCK, 77, v, SCHEDULE64[13], 0x860D21CC);
    v := Play(BLOCK, 78, v, SCHEDULE64[14], 0x5738D5E1);
    v := Play(BLOCK, 79, v, SCHEDULE64[15], 0x42541B35);
  }

  lemma OneBlock(h: Words, block: seq<bv8>)
    requires |block| == 64
    ensures Hash(h, block) == Compress(h, block)
  {
    assert block[..64] == block && |block[64..]| == 0;
  }

  lemma DigestOf(m: seq<bv8>, padded: seq<bv8>, h: Words)
    requires |m| < 0x2000_0000_0000_0000 && Pad(m) == padded && Hash(INITIAL, padded) == h
    ensures MessageDigest(m) == WordBytes(h.a) + WordBytes(h.b) + WordBytes(h.c) + WordBytes(h.d) + WordBytes(h.e)
  {
    hide Pad, Hash, WordBytes;
  }

  lemma KnownBytes()
    ensures WordBytes(0xA9993E36) == [0xA9, 0x99, 0x3E, 0x36]
    ensures WordBytes(0x4706816A) == [0x47, 0x06, 0x81, 0x6A]
    ensures WordBytes(0xBA3E2571) == [0xBA, 0x3E, 0x25, 0x71]
    ensures WordBytes(0x7850C26C) == [0x78, 0x50, 0xC2, 0x6C]
    ensures WordBytes(0x9CD0D89D) == [0x9C, 0xD0, 0xD8, 0x9D]
  {}

  /** SHA-1 of "abc". */
  lemma KnownDigest()
    ensures MessageDigest([0x61, 0x62, 0x63]) == [
      0xA9, 0x99, 0x3E, 0x36, 0x47, 0x06, 0x81, 0x6A, 0xBA, 0x3E,
      0x25, 0x71, 0x78, 0x50, 0xC2, 0x6C, 0x9C, 0xD0, 0xD8, 0x9D
    ]
  {
    hide *;
    BlockIsPadded();
    KnownWords();
    DigestOf([0x61, 0x62, 0x63], BLOCK, Words(0xA9993E36, 0x4706816A, 0xBA3E2571, 0x7850C26C, 0x9CD0D89D));
    KnownBytes();
  }

  lemma KnownWords()
    ensures Hash(INITIAL, BLOCK) == Words(0xA9993E36, 0x4706816A, 0xBA3E2571, 0x7850C26C, 0x9CD0D89D)
  {
    OneBlock(INITIAL, BLOCK);
    FirstWords();
    Rounds0To15();
    Words16To31();
    Rounds16To31();
    Words32To47();
    Rounds32To47();
    Words48To63();
    Rounds48To63();
    Words64To79();
    Rounds64To79();
    hide W, Rounds, Hash;
  }
}
