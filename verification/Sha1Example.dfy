/** The example of one block in FIPS 180: the digest of the message "abc", worked out by the definitions. */
module Sha1Example {
  import opened Sha1Standard

  const ABC: seq<Byte> := [0x61, 0x62, 0x63]

  /** The padded message. */
  predicate Padded(m: Block) {
    m == [0x61626380, 0, 0, 0, 0, 0, 0, 0, 0, 0, 0, 0, 0, 0, 0, 24]
  }

  /** Round t with its schedule word w, which makes a the first working variable. */
  lemma Turn(m: Block, t: nat, h: Hash, w: Word, a: Word) returns (g: Hash)
    requires Rounds(H0, m, t) == h
    requires w == if t < 16 then m[t] else Rotl1(Xor4(W(m, t - 3), W(m, t - 8), W(m, t - 14), W(m, t - 16)))
    requires a == Add(Add(Add(Add(Rotl5(h.a), F(t, h.b, h.c, h.d)), h.e), K(t)), w)
    ensures W(m, t) == w && Rounds(H0, m, t + 1) == g == Hash(a, h.a, Rotl30(h.b), h.c, h.d)
  {
    hide Rotl1, Xor4, Add, Rotl5, Rotl30, F, K;
    g := Round(h, t, w);
  }

  lemma Given(m: Block)
    requires Padded(m)
    ensures Rounds(H0, m, 0) == H0
    ensures m[0] == 0x61626380 && m[15] == 24 && forall t :: 0 < t < 15 ==> m[t] == 0
  {
  }

  lemma Rounds16(m: Block)
    requires Padded(m)
    ensures Rounds(H0, m, 16) == Hash(0x20bdd62f, 0x196bee77, 0x644a3da5, 0x1181ed99, 0x18c623f9)
    ensures W(m, 0) == 0x61626380 && W(m, 1) == 0 && W(m, 2) == 0 && W(m, 3) == 0
    ensures W(m, 4) == 0 && W(m, 5) == 0 && W(m, 6) == 0 && W(m, 7) == 0
    ensures W(m, 8) == 0 && W(m, 9) == 0 && W(m, 10) == 0 && W(m, 11) == 0
    ensures W(m, 12) == 0 && W(m, 13) == 0 && W(m, 14) == 0 && W(m, 15) == 24
  {
    Given(m);
    hide W, Rounds, Padded;
    var h := Hash(0x67452301, 0xefcdab89, 0x98badcfe, 0x10325476, 0xc3d2e1f0);
    h := Turn(m, 0, h, 0x61626380, 0x0116fc33);
    h := Turn(m, 1, h, 0, 0x8990536d);
    h := Turn(m, 2, h, 0, 0xa1390f08);
    h := Turn(m, 3, h, 0, 0xcdd8e11b);
    h := Turn(m, 4, h, 0, 0xcfd499de);
    h := Turn(m, 5, h, 0, 0x3fc7ca40);
    h := Turn(m, 6, h, 0, 0x993e30c1);
    h := Turn(m, 7, h, 0, 0x9e8c07d4);
    h := Turn(m, 8, h, 0, 0x4b6ae328);
    h := Turn(m, 9, h, 0, 0x8351f929);
    h := Turn(m, 10, h, 0, 0xfbda9e89);
    h := Turn(m, 11, h, 0, 0x63188fe4);
    h := Turn(m, 12, h, 0, 0x4607b664);
    h := Turn(m, 13, h, 0, 0x9128f695);
    h := Turn(m, 14, h, 0, 0x196bee77);
    h := Turn(m, 15, h, 24, 0x20bdd62f);
  }

  lemma Rounds32(m: Block)
    requires Padded(m)
    ensures Rounds(H0, m, 32) == Hash(0x3b845d33, 0x1267b407, 0x717eebd7, 0xa0dc2d4b, 0xd2aa1365)
    ensures W(m, 16) == 0xc2c4c700 && W(m, 17) == 0 && W(m, 18) == 48 && W(m, 19) == 0x85898e01
    ensures W(m, 20) == 0 && W(m, 21) == 96 && W(m, 22) == 0x0b131c03 && W(m, 23) == 48
    ensures W(m, 24) == 0x85898ec1 && W(m, 25) == 0x16263806 && W(m, 26) == 0 && W(m, 27) == 0x00000180
    ensures W(m, 28) == 0x2c4c700c && W(m, 29) == 0x000000f0 && W(m, 30) == 0x93afb507 && W(m, 31) == 0x5898e048
  {
    Rounds16(m);
    hide W, Rounds, Padded;
    var h := Hash(0x20bdd62f, 0x196bee77, 0x644a3da5, 0x1181ed99, 0x18c623f9);
    h := Turn(m, 16, h, 0xc2c4c700, 0x4e925823);
    h := Turn(m, 17, h, 0, 0x82aa6728);
    h := Turn(m, 18, h, 48, 0xdc64901d);
    h := Turn(m, 19, h, 0x85898e01, 0xfd9e1d7d);
    h := Turn(m, 20, h, 0, 0x1a37b0ca);
    h := Turn(m, 21, h, 96, 0x33a23bfc);
    h := Turn(m, 22, h, 0x0b131c03, 0x21283486);
    h := Turn(m, 23, h, 48, 0xd541f12d);
    h := Turn(m, 24, h, 0x85898ec1, 0xc7567dc6);
    h := Turn(m, 25, h, 0x16263806, 0x48413ba4);
    h := Turn(m, 26, h, 0, 0xbe35fbd5);
    h := Turn(m, 27, h, 0x00000180, 0x4aa84d97);
    h := Turn(m, 28, h, 0x2c4c700c, 0x8370b52e);
    h := Turn(m, 29, h, 0x000000f0, 0xc5fbaf5d);
    h := Turn(m, 30, h, 0x93afb507, 0x1267b407);
    h := Turn(m, 31, h, 0x5898e048, 0x3b845d33);
  }

  lemma Rounds48(m: Block)
    requires Padded(m)
    ensures Rounds(H0, m, 48) == Hash(0xbead02ca, 0xa01b846c, 0x8714787c, 0x503ca382, 0xfb86c6ab)
    ensures W(m, 32) == 0x8e9a9202 && W(m, 33) == 0x00000600 && W(m, 34) == 0xb131c0f0 && W(m, 35) == 0x16263bc6
    ensures W(m, 36) == 0x4ebed41e && W(m, 37) == 0x626380a1 && W(m, 38) == 0x16263806 && W(m, 39) == 0x000018c0
    ensures W(m, 40) == 0xd2e138c4 && W(m, 41) == 0x00000f00 && W(m, 42) == 0x3afb5079 && W(m, 43) == 0x898e04e5
    ensures W(m, 44) == 0xe2ba3c2b && W(m, 45) == 0x000060c0 && W(m, 46) == 0x053a37cd && W(m, 47) == 0x74458547
  {
    Rounds32(m);
    hide W, Rounds, Padded;
    var h := Hash(0x3b845d33, 0x1267b407, 0x717eebd7, 0xa0dc2d4b, 0xd2aa1365);
    h := Turn(m, 32, h, 0x8e9a9202, 0x046faa0a);
    h := Turn(m, 33, h, 0x00000600, 0x2c0ebc11);
    h := Turn(m, 34, h, 0xb131c0f0, 0x21796ad4);
    h := Turn(m, 35, h, 0x16263bc6, 0xdcbbb0cb);
    h := Turn(m, 36, h, 0x4ebed41e, 0x0f511fd8);
    h := Turn(m, 37, h, 0x626380a1, 0xdc63973f);
    h := Turn(m, 38, h, 0x16263806, 0x4c986405);
    h := Turn(m, 39, h, 0x000018c0, 0x32de1cba);
    h := Turn(m, 40, h, 0xd2e138c4, 0xfc87dedf);
    h := Turn(m, 41, h, 0x00000f00, 0x970a0d5c);
    h := Turn(m, 42, h, 0x3afb5079, 0x7f193dc5);
    h := Turn(m, 43, h, 0x898e04e5, 0xee1b1aaf);
    h := Turn(m, 44, h, 0xe2ba3c2b, 0x40f28e09);
    h := Turn(m, 45, h, 0x000060c0, 0x1c51e1f2);
    h := Turn(m, 46, h, 0x053a37cd, 0xa01b846c);
    h := Turn(m, 47, h, 0x74458547, 0xbead02ca);
  }

  lemma Rounds64(m: Block)
    requires Padded(m)
    ensures Rounds(H0, m, 64) == Hash(0x6b61c9e1, 0xb66c020b, 0x9523272c, 0xf5d5b051, 0x8fd4b796)
    ensures W(m, 48) == 0xda9415ed && W(m, 49) == 0x26380a16 && W(m, 50) == 0x626383a1 && W(m, 51) == 0x4ebf54de
    ensures W(m, 52) == 0x3835b44b && W(m, 53) == 0x0000f600 && W(m, 54) == 0x1e84c7a3 && W(m, 55) == 0x98e04d98
    ensures W(m, 56) == 0x651d16a0 && W(m, 57) == 0x62658ca1 && W(m, 58) == 0x458544d6 && W(m, 59) == 0x44584cb7
    ensures W(m, 60) == 0x7ba06619 && W(m, 61) == 0x6380aea2 && W(m, 62) == 0x0ae55269 && W(m, 63) == 0x627b49a1
  {
    Rounds48(m);
    hide W, Rounds, Padded;
    var h := Hash(0xbead02ca, 0xa01b846c, 0x8714787c, 0x503ca382, 0xfb86c6ab);
    h := Turn(m, 48, h, 0xda9415ed, 0xbaf39337);
    h := Turn(m, 49, h, 0x26380a16, 0x120731c5);
    h := Turn(m, 50, h, 0x626383a1, 0x641db2ce);
    h := Turn(m, 51, h, 0x4ebf54de, 0x3847ad66);
    h := Turn(m, 52, h, 0x3835b44b, 0xe490436d);
    h := Turn(m, 53, h, 0x0000f600, 0x27e9f1d8);
    h := Turn(m, 54, h, 0x1e84c7a3, 0x7b71f76d);
    h := Turn(m, 55, h, 0x98e04d98, 0x5e6456af);
    h := Turn(m, 56, h, 0x651d16a0, 0xc846093f);
    h := Turn(m, 57, h, 0x62658ca1, 0xd262ff50);
    h := Turn(m, 58, h, 0x458544d6, 0x09d785fd);
    h := Turn(m, 59, h, 0x44584cb7, 0x3f52de5a);
    h := Turn(m, 60, h, 0x7ba06619, 0xd756c147);
    h := Turn(m, 61, h, 0x6380aea2, 0x548c9cb2);
    h := Turn(m, 62, h, 0x0ae55269, 0xb66c020b);
    h := Turn(m, 63, h, 0x627b49a1, 0x6b61c9e1);
  }

  lemma Rounds80(m: Block)
    requires Padded(m)
    ensures Rounds(H0, m, 80) == Hash(0x42541b35, 0x5738d5e1, 0x21834873, 0x681e6df6, 0xd8fdf6ad)
  {
    Rounds64(m);
    hide W, Rounds, Padded;
    var h := Hash(0x6b61c9e1, 0xb66c020b, 0x9523272c, 0xf5d5b051, 0x8fd4b796);
    h := Turn(m, 64, h, 0x7cd45c9d, 0x19dfa7ac);
    h := Turn(m, 65, h, 0x000f0000, 0x101655f9);
    h := Turn(m, 66, h, 0xfb50753a, 0x0c3df2b4);
    h := Turn(m, 67, h, 0xec6765e8, 0x78dd4d2b);
    h := Turn(m, 68, h, 0xba3c2be2, 0x497093c0);
    h := Turn(m, 69, h, 0x0060c000, 0x3f2588c2);
    h := Turn(m, 70, h, 0x3a37cd05, 0xc199f8c7);
    h := Turn(m, 71, h, 0x458546f4, 0x39859de7);
    h := Turn(m, 72, h, 0xb8599dd6, 0xedb42de4);
    h := Turn(m, 73, h, 0x380a1a26, 0x11793f6f);
    h := Turn(m, 74, h, 0x01e02203, 0x5ee76897);
    h := Turn(m, 75, h, 0xe7cc3456, 0x63f7dab7);
    h := Turn(m, 76, h, 0xe6e60b69, 0xa079b7d9);
    h := Turn(m, 77, h, 0x00f60a00, 0x860d21cc);
    h := Turn(m, 78, h, 0x5795ef4f, 0x5738d5e1);
    h := Turn(m, 79, h, 0x822e0879, 0x42541b35);
  }

  lemma PaddedBlock(bytes: seq<Byte>)
    requires |bytes| == 64 && bytes == ABC + [0x80] + Zeros(52) + [0, 0, 0, 0, 0, 0, 0, 24]
    ensures Padded(BlockOf(bytes))
  {
    var m := BlockOf(bytes);
    hide BlockOf;
    assert m[0] == WordOf(0x61, 0x62, 0x63, 0x80) == 0x61626380;
    assert m[15] == WordOf(0, 0, 0, 24) == 24;
    forall i | 0 < i < 15 ensures m[i] == 0 {
      assert m[i] == WordOf(0, 0, 0, 0);
    }
  }

  lemma SmallBytes()
    ensures ByteOf(0) == 0 && ByteOf(24) == 24
  {
  }

  lemma AbcLength()
    ensures LengthBytes(24) == [0, 0, 0, 0, 0, 0, 0, 24]
  {
    SmallBytes();
    hide ByteOf;
  }

  lemma AbcPadding()
    ensures Padding(3) == [0x80] + Zeros(52) + [0, 0, 0, 0, 0, 0, 0, 24]
  {
    AbcLength();
    hide LengthBytes;
  }

  lemma AbcBytes()
    ensures Digest(Hash(0xa9993e36, 0x4706816a, 0xba3e2571, 0x7850c26c, 0x9cd0d89d))
        == [0xa9, 0x99, 0x3e, 0x36, 0x47, 0x06, 0x81, 0x6a, 0xba, 0x3e,
            0x25, 0x71, 0x78, 0x50, 0xc2, 0x6c, 0x9c, 0xd0, 0xd8, 0x9d]
  {
  }

  lemma AbcHash(m: Block)
    requires Padded(m)
    ensures Compress(H0, m) == Hash(0xa9993e36, 0x4706816a, 0xba3e2571, 0x7850c26c, 0x9cd0d89d)
  {
    Rounds80(m);
    hide Rounds, Padded;
  }

  /** The digest of "abc" is the published one. */
  lemma DigestOfAbc()
    ensures Sha1(ABC)
        == [0xa9, 0x99, 0x3e, 0x36, 0x47, 0x06, 0x81, 0x6a, 0xba, 0x3e,
            0x25, 0x71, 0x78, 0x50, 0xc2, 0x6c, 0x9c, 0xd0, 0xd8, 0x9d]
  {
    AbcPadding();
    var bytes := ABC + Padding(3);
    PaddedBlock(bytes);
    AbcHash(BlockOf(bytes));
    AbcBytes();
    hide Padding, Compress, BlockOf, Digest;
    assert bytes[..0] == [] && bytes[0..] == bytes;
    assert HashBlocks(bytes) == Compress(HashBlocks([]), BlockOf(bytes));
  }
}
