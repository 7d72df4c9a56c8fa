/** The message of the examples. */
module ExampleMessage {
  import opened Words

  const ABC: seq<byte> := [0x61, 0x62, 0x63]

  lemma AbcIs()
    ensures ABC == [0x61, 0x62, 0x63]
  {
  }
}

/** The SHA-1 digest of the message "abc", as the examples of FIPS 180 list it. */
module Sha1Example {
  import opened Words
  import opened BitCount
  import opened BlockStream
  import opened Sha1Spec
  import opened Sha1Digest
  import opened WordLaws
  import opened ExampleMessage

  /** The words of the padded message. */
  function Abc(): (block: seq<word>)
    ensures |block| == 16
  {
    seq(16, i => if i == 0 then 0x61626380 else if i == 15 then 24 else 0)
  }

  /** Word t, where it is a word of the block or made of words that are known. */
  predicate WordIs(t: nat, w: word) {
    if t < 16 then Abc()[t] == w
    else
      Rotl(1, Xor4(Schedule(Abc(), t - 3), Schedule(Abc(), t - 8), Schedule(Abc(), t - 14), Schedule(Abc(), t - 16)))
      == w
  }

  lemma Next(t: nat, r: Regs, w: word, a: word) returns (s: Regs)
    requires Rounds(Abc(), H0, t) == r && WordIs(t, w)
    requires Sum(Rotl(5, r.a), Ft(t, r.b, r.c, r.d), r.e, Kt(t), w) == a
    ensures s == Regs(a, r.a, Rotl(30, r.b), r.c, r.d) == Rounds(Abc(), H0, t + 1) && Schedule(Abc(), t) == w
  {
    s := Regs(a, r.a, Rotl(30, r.b), r.c, r.d);
    hide Abc, Rotl, Sum, Ft, Kt, Xor4;
  }

  lemma Rounds20() returns (r: Regs)
    ensures r == Regs(0xfd9e1d7d, 0xdc64901d, 0x20aa99ca, 0xd3a49608, 0xc82f758b) == Rounds(Abc(), H0, 20)
    ensures Schedule(Abc(), 4) == 0x00000000 && Schedule(Abc(), 5) == 0x00000000
         && Schedule(Abc(), 6) == 0x00000000 && Schedule(Abc(), 7) == 0x00000000
    ensures Schedule(Abc(), 8) == 0x00000000 && Schedule(Abc(), 9) == 0x00000000
         && Schedule(Abc(), 10) == 0x00000000 && Schedule(Abc(), 11) == 0x00000000
    ensures Schedule(Abc(), 12) == 0x00000000 && Schedule(Abc(), 13) == 0x00000000
         && Schedule(Abc(), 14) == 0x00000000 && Schedule(Abc(), 15) == 0x00000018
    ensures Schedule(Abc(), 16) == 0xc2c4c700 && Schedule(Abc(), 17) == 0x00000000
         && Schedule(Abc(), 18) == 0x00000030 && Schedule(Abc(), 19) == 0x85898e01
  {
    r := H0;
    assert Rounds(Abc(), H0, 0) == H0;
    hide Schedule, Rounds;
    r := Next(0, r, 0x61626380, 0x0116fc33);
    r := Next(1, r, 0x00000000, 0x8990536d);
    r := Next(2, r, 0x00000000, 0xa1390f08);
    r := Next(3, r, 0x00000000, 0xcdd8e11b);
    r := Next(4, r, 0x00000000, 0xcfd499de);
    r := Next(5, r, 0x00000000, 0x3fc7ca40);
    r := Next(6, r, 0x00000000, 0x993e30c1);
    r := Next(7, r, 0x00000000, 0x9e8c07d4);
    r := Next(8, r, 0x00000000, 0x4b6ae328);
    r := Next(9, r, 0x00000000, 0x8351f929);
    r := Next(10, r, 0x00000000, 0xfbda9e89);
    r := Next(11, r, 0x00000000, 0x63188fe4);
    r := Next(12, r, 0x00000000, 0x4607b664);
    r := Next(13, r, 0x00000000, 0x9128f695);
    r := Next(14, r, 0x00000000, 0x196bee77);
    r := Next(15, r, 0x00000018, 0x20bdd62f);
    r := Next(16, r, 0xc2c4c700, 0x4e925823);
    r := Next(17, r, 0x00000000, 0x82aa6728);
    r := Next(18, r, 0x00000030, 0xdc64901d);
    r := Next(19, r, 0x85898e01, 0xfd9e1d7d);
  }

  lemma Rounds40() returns (r: Regs)
    ensures r == Regs(0x32de1cba, 0x4c986405, 0xf718e5cf, 0x03d447f6, 0xf72eec32) == Rounds(Abc(), H0, 40)
    ensures Schedule(Abc(), 24) == 0x85898ec1 && Schedule(Abc(), 25) == 0x16263806
         && Schedule(Abc(), 26) == 0x00000000 && Schedule(Abc(), 27) == 0x00000180
    ensures Schedule(Abc(), 28) == 0x2c4c700c && Schedule(Abc(), 29) == 0x000000f0
         && Schedule(Abc(), 30) == 0x93afb507 && Schedule(Abc(), 31) == 0x5898e048
    ensures Schedule(Abc(), 32) == 0x8e9a9202 && Schedule(Abc(), 33) == 0x00000600
         && Schedule(Abc(), 34) == 0xb131c0f0 && Schedule(Abc(), 35) == 0x16263bc6
    ensures Schedule(Abc(), 36) == 0x4ebed41e && Schedule(Abc(), 37) == 0x626380a1
         && Schedule(Abc(), 38) == 0x16263806 && Schedule(Abc(), 39) == 0x000018c0
  {
    r := Rounds20();
    hide Schedule, Rounds, Abc;
    r := Next(20, r, 0x00000000, 0x1a37b0ca);
    r := Next(21, r, 0x00000060, 0x33a23bfc);
    r := Next(22, r, 0x0b131c03, 0x21283486);
    r := Next(23, r, 0x00000030, 0xd541f12d);
    r := Next(24, r, 0x85898ec1, 0xc7567dc6);
    r := Next(25, r, 0x16263806, 0x48413ba4);
    r := Next(26, r, 0x00000000, 0xbe35fbd5);
    r := Next(27, r, 0x00000180, 0x4aa84d97);
    r := Next(28, r, 0x2c4c700c, 0x8370b52e);
    r := Next(29, r, 0x000000f0, 0xc5fbaf5d);
    r := Next(30, r, 0x93afb507, 0x1267b407);
    r := Next(31, r, 0x5898e048, 0x3b845d33);
    r := Next(32, r, 0x8e9a9202, 0x046faa0a);
    r := Next(33, r, 0x00000600, 0x2c0ebc11);
    r := Next(34, r, 0xb131c0f0, 0x21796ad4);
    r := Next(35, r, 0x16263bc6, 0xdcbbb0cb);
    r := Next(36, r, 0x4ebed41e, 0x0f511fd8);
    r := Next(37, r, 0x626380a1, 0xdc63973f);
    r := Next(38, r, 0x16263806, 0x4c986405);
    r := Next(39, r, 0x000018c0, 0x32de1cba);
  }

  lemma Rounds60() returns (r: Regs)
    ensures r == Regs(0x3f52de5a, 0x09d785fd, 0x3498bfd4, 0xf211824f, 0xd79915ab) == Rounds(Abc(), H0, 60)
    ensures Schedule(Abc(), 44) == 0xe2ba3c2b && Schedule(Abc(), 45) == 0x000060c0
         && Schedule(Abc(), 46) == 0x053a37cd && Schedule(Abc(), 47) == 0x74458547
    ensures Schedule(Abc(), 48) == 0xda9415ed && Schedule(Abc(), 49) == 0x26380a16
         && Schedule(Abc(), 50) == 0x626383a1 && Schedule(Abc(), 51) == 0x4ebf54de
    ensures Schedule(Abc(), 52) == 0x3835b44b && Schedule(Abc(), 53) == 0x0000f600
         && Schedule(Abc(), 54) == 0x1e84c7a3 && Schedule(Abc(), 55) == 0x98e04d98
    ensures Schedule(Abc(), 56) == 0x651d16a0 && Schedule(Abc(), 57) == 0x62658ca1
         && Schedule(Abc(), 58) == 0x458544d6 && Schedule(Abc(), 59) == 0x44584cb7
  {
    r := Rounds40();
    hide Schedule, Rounds, Abc;
    r := Next(40, r, 0xd2e138c4, 0xfc87dedf);
    r := Next(41, r, 0x00000f00, 0x970a0d5c);
    r := Next(42, r, 0x3afb5079, 0x7f193dc5);
    r := Next(43, r, 0x898e04e5, 0xee1b1aaf);
    r := Next(44, r, 0xe2ba3c2b, 0x40f28e09);
    r := Next(45, r, 0x000060c0, 0x1c51e1f2);
    r := Next(46, r, 0x053a37cd, 0xa01b846c);
    r := Next(47, r, 0x74458547, 0xbead02ca);
    r := Next(48, r, 0xda9415ed, 0xbaf39337);
    r := Next(49, r, 0x26380a16, 0x120731c5);
    r := Next(50, r, 0x626383a1, 0x641db2ce);
    r := Next(51, r, 0x4ebf54de, 0x3847ad66);
    r := Next(52, r, 0x3835b44b, 0xe490436d);
    r := Next(53, r, 0x0000f600, 0x27e9f1d8);
    r := Next(54, r, 0x1e84c7a3, 0x7b71f76d);
    r := Next(55, r, 0x98e04d98, 0x5e6456af);
    r := Next(56, r, 0x651d16a0, 0xc846093f);
    r := Next(57, r, 0x62658ca1, 0xd262ff50);
    r := Next(58, r, 0x458544d6, 0x09d785fd);
    r := Next(59, r, 0x44584cb7, 0x3f52de5a);
  }

  lemma Rounds80() returns (r: Regs)
    ensures r == Regs(0x42541b35, 0x5738d5e1, 0x21834873, 0x681e6df6, 0xd8fdf6ad) == Rounds(Abc(), H0, 80)
  {
    r := Rounds60();
    hide Schedule, Rounds, Abc;
    r := Next(60, r, 0x7ba06619, 0xd756c147);
    r := Next(61, r, 0x6380aea2, 0x548c9cb2);
    r := Next(62, r, 0x0ae55269, 0xb66c020b);
    r := Next(63, r, 0x627b49a1, 0x6b61c9e1);
    r := Next(64, r, 0x7cd45c9d, 0x19dfa7ac);
    r := Next(65, r, 0x000f0000, 0x101655f9);
    r := Next(66, r, 0xfb50753a, 0x0c3df2b4);
    r := Next(67, r, 0xec6765e8, 0x78dd4d2b);
    r := Next(68, r, 0xba3c2be2, 0x497093c0);
    r := Next(69, r, 0x0060c000, 0x3f2588c2);
    r := Next(70, r, 0x3a37cd05, 0xc199f8c7);
    r := Next(71, r, 0x458546f4, 0x39859de7);
    r := Next(72, r, 0xb8599dd6, 0xedb42de4);
    r := Next(73, r, 0x380a1a26, 0x11793f6f);
    r := Next(74, r, 0x01e02203, 0x5ee76897);
    r := Next(75, r, 0xe7cc3456, 0x63f7dab7);
    r := Next(76, r, 0xe6e60b69, 0xa079b7d9);
    r := Next(77, r, 0x00f60a00, 0x860d21cc);
    r := Next(78, r, 0x5795ef4f, 0x5738d5e1);
    r := Next(79, r, 0x822e0879, 0x42541b35);
  }
  lemma PaddedAbc()
    ensures ABC + Padding(3) == [0x61, 0x62, 0x63, 0x80] + Zeroes(52) + LengthBytes(3)
  {
    assert Zeros(3) == 52;
    hide Zeroes, LengthBytes;
  }

  lemma LengthOfAbc()
    ensures LengthBytes(3) == [0, 0, 0, 0, 0, 0, 0, 24]
  {
    assert WordOf(0) == 0 && WordOf(24) == 24;
    BigEndianBytesAt([0, 24], 0);
    BigEndianBytesAt([0, 24], 1);
    hide BigEndianBytes;
  }

  lemma BlockOfAbc()
    ensures |ABC + Padding(3)| == 64 && BigEndianWords(ABC + Padding(3)) == Abc()
  {
    PaddedAbc();
    LengthOfAbc();
    hide Padding, LengthBytes;
    var block := ABC + Padding(3);
    assert forall i :: 4 <= i < 60 ==> block[i] == 0;
    assert BigEndianWord(0x61, 0x62, 0x63, 0x80) == 0x61626380 && BigEndianWord(0, 0, 0, 0) == 0;
    assert BigEndianWord(0, 0, 0, 24) == 24;
    hide BigEndianWord;
    forall i: nat | i < 16 ensures BigEndianWords(block)[i] == Abc()[i] {
      if i == 0 {
        assert block[0] == 0x61 && block[1] == 0x62 && block[2] == 0x63 && block[3] == 0x80;
      } else if i == 15 {
        assert block[60] == 0 && block[61] == 0 && block[62] == 0 && block[63] == 24;
      } else {
        assert block[4 * i] == block[4 * i + 1] == block[4 * i + 2] == block[4 * i + 3] == 0;
      }
    }
  }

  lemma ChainOfAbc()
    ensures Chain(ABC + Padding(3)) == AddRegs(H0, Rounds(Abc(), H0, 80))
  {
    BlockOfAbc();
    hide Padding, Abc, BigEndianWords, Rounds, AddRegs;
    AbsorbOne(Compress, H0, [], ABC + Padding(3));
    assert [] + (ABC + Padding(3)) == ABC + Padding(3);
  }

  lemma RegsOfAbc()
    ensures ToWords(AddRegs(H0, Regs(0x42541b35, 0x5738d5e1, 0x21834873, 0x681e6df6, 0xd8fdf6ad)))
         == [0xa9993e36, 0x4706816a, 0xba3e2571, 0x7850c26c, 0x9cd0d89d]
  {
  }

  lemma BytesOfAbc()
    ensures BigEndianBytes([0xa9993e36, 0x4706816a, 0xba3e2571, 0x7850c26c, 0x9cd0d89d])
         == [0xa9, 0x99, 0x3e, 0x36, 0x47, 0x06, 0x81, 0x6a, 0xba, 0x3e, 0x25, 0x71,
             0x78, 0x50, 0xc2, 0x6c, 0x9c, 0xd0, 0xd8, 0x9d]
  {
    var bytes: seq<byte> :=
      [0xa9, 0x99, 0x3e, 0x36, 0x47, 0x06, 0x81, 0x6a, 0xba, 0x3e, 0x25, 0x71,
       0x78, 0x50, 0xc2, 0x6c, 0x9c, 0xd0, 0xd8, 0x9d];
    assert BigEndianWords(bytes) == [0xa9993e36, 0x4706816a, 0xba3e2571, 0x7850c26c, 0x9cd0d89d];
    BytesOfWords(bytes);
    hide BigEndianBytes, BigEndianWords;
  }

  lemma Sha1Is()
    ensures Sha1(ABC) == BigEndianBytes(ToWords(Chain(ABC + Padding(3))))
  {
    hide Chain, Padding, BigEndianBytes, ToWords;
  }

  /** SHA-1 of "abc". */
  lemma Sha1OfAbc()
    ensures Sha1([0x61, 0x62, 0x63])
         == [0xa9, 0x99, 0x3e, 0x36, 0x47, 0x06, 0x81, 0x6a, 0xba, 0x3e, 0x25, 0x71,
             0x78, 0x50, 0xc2, 0x6c, 0x9c, 0xd0, 0xd8, 0x9d]
  {
    AbcIs();
    Sha1Is();
    var r := Rounds80();
    RegsOfAbc();
    BytesOfAbc();
    hide *;
    ChainOfAbc();
  }
}

/** The MD5 digest of the message "abc", as the test suite of section A.5 of RFC 1321 lists it. */
module Md5Example {
  import opened Words
  import opened BitCount
  import opened BlockStream
  import opened Md5Spec
  import Md5Transform
  import opened Md5Digest
  import opened ExampleMessage

  /** The words of the padded message. */
  function AbcWord(k: nat): word { if k == 0 then 0x80636261 else if k == 14 then 24 else 0 }

  function Abc(): (block: seq<word>)
    ensures |block| == 16
  {
    seq(16, i requires 0 <= i => AbcWord(i))
  }

  /** One operation, with the word, the rotation and the entry of the table that it uses; b is the
      register it computes. */
  lemma Next(i: nat, r: Regs, k: nat, s: word, t: word, f: word, b: word) returns (after: Regs)
    requires Steps(Abc(), H0, i) == r && K(i) == k && S(i) == s && T(i) == t
    requires Ft(i, r.b, r.c, r.d) == f && Add(r.b, Rotl(s, Sum(r.a, f, AbcWord(k), t))) == b
    ensures after == Regs(r.d, b, r.b, r.c) == Steps(Abc(), H0, i + 1)
  {
    after := Regs(r.d, b, r.b, r.c);
    hide AbcWord, Rotl, Sum, Ft, T, S, Add, K;
  }

  lemma Steps4() returns (r: Regs)
    ensures r == Regs(0xd6d117b4, 0x7ad956f2, 0x2f6fbd72, 0x344a8432) == Steps(Abc(), H0, 4)
  {
    r := H0;
    assert Steps(Abc(), H0, 0) == H0;
    hide Steps, Abc;
    r := Next(0, r, 0, 7, 0xd76aa478, 0x98badcfe, 0xd6d117b4);
    r := Next(1, r, 1, 12, 0xe8c7b756, 0xceebcbca, 0x344a8432);
    r := Next(2, r, 2, 17, 0x242070db, 0xdfc52fb9, 0x2f6fbd72);
    r := Next(3, r, 3, 22, 0xc1bdceee, 0xf4da86b6, 0x7ad956f2);
  }

  lemma Steps8() returns (r: Regs)
    ensures r == Regs(0xc73741ef, 0x928d99f6, 0x207dc67b, 0x8bac3051) == Steps(Abc(), H0, 8)
  {
    r := Steps4();
    hide Steps, Abc;
    r := Next(4, r, 4, 7, 0xf57c0faf, 0x2e4b9472, 0xc73741ef);
    r := Next(5, r, 5, 12, 0x4787c62a, 0x6a59fcf2, 0x8bac3051);
    r := Next(6, r, 6, 17, 0xa8304613, 0xf37546e3, 0x207dc67b);
    r := Next(7, r, 7, 22, 0xfd469501, 0xc72e01d5, 0x928d99f6);
  }

  lemma Steps12() returns (r: Regs)
    ensures r == Regs(0x854b3712, 0x5ed49596, 0x3020401c, 0x74e2f284) == Steps(Abc(), H0, 12)
  {
    r := Steps8();
    hide Steps, Abc;
    r := Next(8, r, 8, 7, 0x698098d8, 0x092da073, 0x854b3712);
    r := Next(9, r, 9, 12, 0x8b44f7af, 0xa03dd17b, 0x74e2f284);
    r := Next(10, r, 10, 17, 0xffff5bb1, 0x864f3b72, 0x3020401c);
    r := Next(11, r, 11, 22, 0x895cd7be, 0xb56b7706, 0x5ed49596);
  }

  lemma Steps16() returns (r: Regs)
    ensures r == Regs(0xdda9b9a6, 0x72aff2e0, 0xe396856b, 0xa1051895) == Steps(Abc(), H0, 16)
  {
    r := Steps12();
    hide Steps, Abc;
    r := Next(12, r, 12, 7, 0x6b901122, 0x30226214, 0xdda9b9a6);
    r := Next(13, r, 13, 12, 0xfd987193, 0x7c80d19e, 0xa1051895);
    r := Next(14, r, 14, 17, 0xa679438e, 0xdfd19d86, 0xe396856b);
    r := Next(15, r, 15, 22, 0x49b40821, 0xbd2d3885, 0x72aff2e0);
  }

  lemma Steps20() returns (r: Regs)
    ensures r == Regs(0x3e9e9126, 0xb5b204e4, 0xe25e1652, 0x4a1d804e) == Steps(Abc(), H0, 20)
  {
    r := Steps16();
    hide Steps, Abc;
    r := Next(16, r, 1, 5, 0xf61e2562, 0x629795ea, 0x3e9e9126);
    r := Next(17, r, 6, 9, 0xc040b340, 0x32bff3a2, 0x4a1d804e);
    r := Next(18, r, 11, 14, 0x265e5a51, 0x4e1d8146, 0xe25e1652);
    r := Next(19, r, 0, 20, 0xe9b6c7aa, 0x621f104a, 0xb5b204e4);
  }

  lemma Steps24() returns (r: Regs)
    ensures r == Regs(0x59a8ffda, 0x47092c07, 0xabfc7920, 0x6d002f1e) == Steps(Abc(), H0, 24)
  {
    r := Steps20();
    hide Steps, Abc;
    r := Next(20, r, 5, 5, 0xd62f105d, 0xa0521654, 0x59a8ffda);
    r := Next(21, r, 10, 9, 0x02441453, 0x55a816f6, 0x6d002f1e);
    r := Next(22, r, 15, 14, 0xd8a1e681, 0x6d08ff1e, 0xabfc7920);
    r := Next(23, r, 4, 20, 0xe7d3fbc8, 0x2da87904, 0x47092c07);
  }

  lemma Steps28() returns (r: Regs)
    ensures r == Regs(0xb7f268cf, 0x786acb8f, 0xfe1623b1, 0x09388eff) == Steps(Abc(), H0, 28)
  {
    r := Steps24();
    hide Steps, Abc;
    r := Next(24, r, 9, 5, 0x21e1cde6, 0xc7fc7c26, 0xb7f268cf);
    r := Next(25, r, 14, 9, 0xc33707d6, 0xe7f16c07, 0x09388eff);
    r := Next(26, r, 3, 14, 0xf4d50d87, 0xb1fa4ccf, 0xfe1623b1);
    r := Next(27, r, 8, 20, 0x455a14ed, 0xbe1aa6b1, 0x786acb8f);
  }

  lemma Steps32() returns (r: Regs)
    ensures r == Regs(0x790a77fb, 0x726342d3, 0xa62884aa, 0x9f47e4f8) == Steps(Abc(), H0, 32)
  {
    r := Steps28();
    hide Steps, Abc;
    r := Next(28, r, 13, 5, 0xa9e3e905, 0xfe2eab8f, 0x790a77fb);
    r := Next(29, r, 2, 9, 0xfcefa3f8, 0x786aebbf, 0x9f47e4f8);
    r := Next(30, r, 7, 14, 0x676f02d9, 0x1942f4f8, 0xa62884aa);
    r := Next(31, r, 12, 20, 0x8d2a4c8a, 0xa64d84aa, 0x726342d3);
  }

  lemma Steps36() returns (r: Regs)
    ensures r == Regs(0xb3707ebf, 0x3b0875c7, 0x8d212ff5, 0x60127b2e) == Steps(Abc(), H0, 36)
  {
    r := Steps32();
    hide Steps, Abc;
    r := Next(32, r, 5, 4, 0xfffa3942, 0x4b0c2281, 0xb3707ebf);
    r := Next(33, r, 8, 11, 0x8771f681, 0x673bb8c6, 0x60127b2e);
    r := Next(34, r, 11, 16, 0x6d9d6122, 0xa1014742, 0x8d212ff5);
    r := Next(35, r, 14, 23, 0xfde5380c, 0x5e432a64, 0x3b0875c7);
  }

  lemma Steps40() returns (r: Regs)
    ensures r == Regs(0x21b117b9, 0x5a2f5ea5, 0x3575227e, 0x6e7429d5) == Steps(Abc(), H0, 40)
  {
    r := Steps36();
    hide Steps, Abc;
    r := Next(36, r, 1, 4, 0xa4beea44, 0xd63b211c, 0x21b117b9);
    r := Next(37, r, 4, 11, 0x4bdecfa9, 0x97984d8b, 0x6e7429d5);
    r := Next(38, r, 7, 16, 0xf6bb4b60, 0x74cd4bab, 0x3575227e);
    r := Next(39, r, 10, 23, 0xbebfbc70, 0x7ab01c12, 0x5a2f5ea5);
  }

  lemma Steps44() returns (r: Regs)
    ensures r == Regs(0x11de1779, 0x4c6124f4, 0x31c465ca, 0xfadcaa38) == Steps(Abc(), H0, 44)
  {
    r := Steps40();
    hide Steps, Abc;
    r := Next(40, r, 13, 4, 0x289b7ec6, 0x012e550e, 0x11de1779);
    r := Next(41, r, 0, 11, 0xeaa127fa, 0x7e846ba2, 0xfadcaa38);
    r := Next(42, r, 3, 16, 0xd4ef3085, 0xb12de3e4, 0x31c465ca);
    r := Next(43, r, 6, 23, 0x04881d05, 0xdac6d88b, 0x4c6124f4);
  }

  lemma Steps48() returns (r: Regs)
    ensures r == Regs(0x7f2e507b, 0x7beb9700, 0x8fae6399, 0x99d9679d) == Steps(Abc(), H0, 48)
  {
    r := Steps44();
    hide Steps, Abc;
    r := Next(44, r, 9, 4, 0xd9d4d039, 0x8779eb06, 0x7f2e507b);
    r := Next(45, r, 12, 11, 0xe6db99e5, 0x028b1145, 0x99d9679d);
    r := Next(46, r, 15, 16, 0x1fa27cf8, 0xaa961312, 0x8fae6399);
    r := Next(47, r, 2, 23, 0xc4ac5665, 0x6959547f, 0x7beb9700);
  }

  lemma Steps52() returns (r: Regs)
    ensures r == Regs(0x7b201df8, 0x8bf025c4, 0xb298cefd, 0xf4e8e96e) == Steps(Abc(), H0, 52)
  {
    r := Steps48();
    hide Steps, Abc;
    r := Next(48, r, 0, 6, 0xf4292244, 0xf041fcfb, 0x7b201df8);
    r := Next(49, r, 7, 10, 0x432aff97, 0x009a0afe, 0xf4e8e96e);
    r := Next(50, r, 14, 15, 0xab9423a7, 0x8fdcf407, 0xb298cefd);
    r := Next(51, r, 5, 21, 0xfc93a039, 0x42370791, 0x8bf025c4);
  }

  lemma Steps56() returns (r: Regs)
    ensures r == Regs(0x06cc5e8a, 0x3bfa2c27, 0x7d632dd0, 0x5b0d97aa) == Steps(Abc(), H0, 56)
  {
    r := Steps52();
    hide Steps, Abc;
    r := Next(52, r, 12, 6, 0x655b59c3, 0x396ff928, 0x06cc5e8a);
    r := Next(53, r, 3, 10, 0x8f0ccc92, 0xc41f5a4e, 0x5b0d97aa);
    r := Next(54, r, 10, 15, 0xffeff47d, 0x79c38131, 0x7d632dd0);
    r := Next(55, r, 1, 21, 0x85845dd1, 0xa67e3a5f, 0x3bfa2c27);
  }

  lemma Steps60() returns (r: Regs)
    ensures r == Regs(0x7f81cc35, 0x7327d604, 0x4f9dbe3f, 0x094454ab) == Steps(Abc(), H0, 60)
  {
    r := Steps56();
    hide Steps, Abc;
    r := Next(56, r, 8, 6, 0x6fa87e4f, 0xc29941a7, 0x7f81cc35);
    r := Next(57, r, 15, 10, 0xfe2ce6e0, 0xc467f218, 0x094454ab);
    r := Next(58, r, 6, 15, 0xa3014314, 0xb2c41bce, 0x4f9dbe3f);
    r := Next(59, r, 13, 21, 0x4e0811a1, 0xc6bbeb54, 0x7327d604);
  }

  lemma Steps64() returns (r: Regs)
    ensures r == Regs(0x310ade8f, 0xc08226b3, 0xe484b9d8, 0x624d8cb2) == Steps(Abc(), H0, 64)
  {
    r := Steps60();
    hide Steps, Abc;
    r := Next(60, r, 4, 6, 0xf7537e82, 0xb822416b, 0x310ade8f);
    r := Next(61, r, 11, 10, 0xbd3af235, 0xc24d09cb, 0x624d8cb2);
    r := Next(62, r, 2, 15, 0x2ad7d2bb, 0xdfd77374, 0xe484b9d8);
    r := Next(63, r, 9, 21, 0xeb86d391, 0x8cb8354a, 0xc08226b3);
  }
  lemma PaddedAbc()
    ensures ABC + Padding(3) == [0x61, 0x62, 0x63, 0x80] + Zeroes(52) + LengthBytes(3)
  {
    assert Zeros(3) == 52;
    hide Zeroes, LengthBytes;
  }

  lemma LengthOfAbc()
    ensures LengthBytes(3) == [24, 0, 0, 0, 0, 0, 0, 0]
  {
    assert WordOf(0) == 0 && WordOf(24) == 24;
    LittleEndianBytesAt([24, 0], 0);
    LittleEndianBytesAt([24, 0], 1);
    hide LittleEndianBytes;
  }

  lemma BlockOfAbc()
    ensures |ABC + Padding(3)| == 64 && LittleEndianWords(ABC + Padding(3)) == Abc()
  {
    PaddedAbc();
    LengthOfAbc();
    hide Padding, LengthBytes;
    var block := ABC + Padding(3);
    assert forall i :: 4 <= i < 64 && i != 56 ==> block[i] == 0;
    assert LittleEndianWord(0x61, 0x62, 0x63, 0x80) == 0x80636261 && LittleEndianWord(0, 0, 0, 0) == 0;
    assert LittleEndianWord(24, 0, 0, 0) == 24;
    hide LittleEndianWord;
    forall i: nat | i < 16 ensures LittleEndianWords(block)[i] == Abc()[i] {
      if i == 0 {
        assert block[0] == 0x61 && block[1] == 0x62 && block[2] == 0x63 && block[3] == 0x80;
      } else if i == 14 {
        assert block[56] == 24 && block[57] == 0 && block[58] == 0 && block[59] == 0;
      } else {
        assert block[4 * i] == block[4 * i + 1] == block[4 * i + 2] == block[4 * i + 3] == 0;
      }
    }
  }

  lemma ChainOfAbc()
    ensures Chain(ABC + Padding(3)) == AddRegs(H0, Steps(Abc(), H0, 64))
  {
    BlockOfAbc();
    hide Padding, Abc, LittleEndianWords, Steps, AddRegs;
    AbsorbOne(Compress, H0, [], ABC + Padding(3));
    assert [] + (ABC + Padding(3)) == ABC + Padding(3);
  }

  lemma RegsOfAbc()
    ensures ToWords(AddRegs(H0, Regs(0x310ade8f, 0xc08226b3, 0xe484b9d8, 0x624d8cb2)))
         == [0x98500190, 0xb04fd23c, 0x7d3f96d6, 0x727fe128]
  {
  }

  lemma BytesOfAbc()
    ensures LittleEndianBytes([0x98500190, 0xb04fd23c, 0x7d3f96d6, 0x727fe128])
         == [0x90, 0x01, 0x50, 0x98, 0x3c, 0xd2, 0x4f, 0xb0,
             0xd6, 0x96, 0x3f, 0x7d, 0x28, 0xe1, 0x7f, 0x72]
  {
    var bytes: seq<byte> :=
      [0x90, 0x01, 0x50, 0x98, 0x3c, 0xd2, 0x4f, 0xb0,
       0xd6, 0x96, 0x3f, 0x7d, 0x28, 0xe1, 0x7f, 0x72];
    assert LittleEndianWords(bytes) == [0x98500190, 0xb04fd23c, 0x7d3f96d6, 0x727fe128];
    Md5Transform.DecodeEncode(bytes);
    hide LittleEndianBytes, LittleEndianWords;
  }

  lemma Md5Is()
    ensures Md5(ABC) == LittleEndianBytes(ToWords(Chain(ABC + Padding(3))))
  {
    hide Chain, Padding, LittleEndianBytes, ToWords;
  }

  /** MD5 of "abc". */
  lemma Md5OfAbc()
    ensures Md5([0x61, 0x62, 0x63])
         == [0x90, 0x01, 0x50, 0x98, 0x3c, 0xd2, 0x4f, 0xb0,
             0xd6, 0x96, 0x3f, 0x7d, 0x28, 0xe1, 0x7f, 0x72]
  {
    AbcIs();
    Md5Is();
    var r := Steps64();
    RegsOfAbc();
    BytesOfAbc();
    hide *;
    ChainOfAbc();
  }
}
