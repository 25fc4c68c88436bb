/**
 * XXH64 pinned down from outside: its rotations move bits, and two known answers between them
 * reach the lanes, the words, the half word, the single bytes and the avalanche.
 */
module Xxh64Answers {
  import opened Words
  import opened Bytes
  import opened Bitwise
  import opened WordBits
  import opened XxhStream
  import opened Xxh64

  /** Rotl joins the low part and the high part of x the other way round. */
  lemma RotlParts(x: Word, r: nat, hi: nat, lo: nat)
    requires r <= 64 && x == Pow2(64 - r) * hi + lo && lo < Pow2(64 - r)
    ensures hi < Pow2(r) && Pow2(r) * lo >= 0 && Rotl(x, r) == Pow2(r) * lo + hi
  {
    hide Pow2;
    Pow2Of64();
    Pow2Sum(r, 64 - r);
    DivUnique(x, Pow2(64 - r), hi, lo);
    RotlValue(x, Pow2(r), Pow2(64 - r), hi, lo);
  }

  lemma RotlValue(x: Word, p: nat, q: nat, hi: nat, lo: nat)
    requires p > 0 && q > 0 && p * q == 0x1_0000_0000_0000_0000 && x == q * hi + lo && lo < q
    ensures hi < p && p * lo >= 0 && Wrap(Wrap(x * p) + hi) == p * lo + hi
  {
    hide Wrap;
    MulBounds(hi - p, q);
    ProductLe(lo + 1, p, q, p);
    assert (q * hi + lo) * p == (p * q) * hi + p * lo;
    WrapIs(x * p, hi, p * lo);
    WrapIs(p * lo + hi, 0, p * lo + hi);
  }

  /** XXH_rotl64 is the rotation: bit k comes from bit k - r modulo 64. */
  lemma RotlBits(x: Word, r: nat, k: nat)
    requires r <= 64 && k < 64
    ensures BitAt(Rotl(x, r), k) == BitAt(x, if k < r then k + 64 - r else k - r)
  {
    hide Rotl, Pow2, BitAt;
    var q := Pow2(64 - r);
    RotlParts(x, r, x / q, x % q);
    RotatedBits(x / q, x % q, 64, r, k);
  }

  // Rotations of given values.

  lemma Rotl1(x: Word, hi: nat, lo: nat)
    requires x == 0x8000000000000000 * hi + lo && lo < 0x8000000000000000
    ensures Rotl(x, 1) == 0x2 * lo + hi
  {
    hide Pow2, Rotl;
    Powers();
    RotlParts(x, 1, hi, lo);
  }

  lemma Rotl7(x: Word, hi: nat, lo: nat)
    requires x == 0x200000000000000 * hi + lo && lo < 0x200000000000000
    ensures Rotl(x, 7) == 0x80 * lo + hi
  {
    hide Pow2, Rotl;
    Powers();
    RotlParts(x, 7, hi, lo);
  }

  lemma Rotl11(x: Word, hi: nat, lo: nat)
    requires x == 0x20000000000000 * hi + lo && lo < 0x20000000000000
    ensures Rotl(x, 11) == 0x800 * lo + hi
  {
    hide Pow2, Rotl;
    Powers();
    RotlParts(x, 11, hi, lo);
  }

  lemma Rotl12(x: Word, hi: nat, lo: nat)
    requires x == 0x10000000000000 * hi + lo && lo < 0x10000000000000
    ensures Rotl(x, 12) == 0x1000 * lo + hi
  {
    hide Pow2, Rotl;
    Powers();
    RotlParts(x, 12, hi, lo);
  }

  lemma Rotl18(x: Word, hi: nat, lo: nat)
    requires x == 0x400000000000 * hi + lo && lo < 0x400000000000
    ensures Rotl(x, 18) == 0x40000 * lo + hi
  {
    hide Pow2, Rotl;
    Powers();
    RotlParts(x, 18, hi, lo);
  }

  lemma Rotl23(x: Word, hi: nat, lo: nat)
    requires x == 0x20000000000 * hi + lo && lo < 0x20000000000
    ensures Rotl(x, 23) == 0x800000 * lo + hi
  {
    hide Pow2, Rotl;
    Powers();
    RotlParts(x, 23, hi, lo);
  }

  lemma Rotl27(x: Word, hi: nat, lo: nat)
    requires x == 0x2000000000 * hi + lo && lo < 0x2000000000
    ensures Rotl(x, 27) == 0x8000000 * lo + hi
  {
    hide Pow2, Rotl;
    Powers();
    RotlParts(x, 27, hi, lo);
  }

  lemma Rotl31(x: Word, hi: nat, lo: nat)
    requires x == 0x200000000 * hi + lo && lo < 0x200000000
    ensures Rotl(x, 31) == 0x80000000 * lo + hi
  {
    hide Pow2, Rotl;
    Powers();
    RotlParts(x, 31, hi, lo);
  }

  lemma Powers()
    ensures Pow2(1) == 0x2 && Pow2(7) == 0x80 && Pow2(11) == 0x800
    ensures Pow2(12) == 0x1000 && Pow2(18) == 0x40000 && Pow2(23) == 0x800000
    ensures Pow2(27) == 0x8000000 && Pow2(31) == 0x80000000 && Pow2(33) == 0x200000000
    ensures Pow2(37) == 0x2000000000 && Pow2(41) == 0x20000000000 && Pow2(46) == 0x400000000000
    ensures Pow2(52) == 0x10000000000000 && Pow2(53) == 0x20000000000000 && Pow2(57) == 0x200000000000000
    ensures Pow2(63) == 0x8000000000000000
  {
    hide Pow2;
    Pow2Small();
    Pow2Bytes();
    Pow2Sum(8, 3);
    Pow2Sum(8, 4);
    Pow2Sum(16, 2);
    Pow2Sum(16, 7);
    Pow2Sum(24, 3);
    Pow2Sum(24, 7);
    Pow2Sum(32, 1);
    Pow2Sum(32, 5);
    Pow2Sum(40, 1);
    Pow2Sum(40, 6);
    Pow2Sum(48, 4);
    Pow2Sum(48, 5);
    Pow2Sum(56, 1);
    Pow2Sum(56, 7);
  }

  // The message of 45 bytes 0, 1, 2, ... under the seed 7.

  const DATA: seq<Byte> := seq(45, i => i)

  /** Its words and its half word. */
  lemma DataWords()
    ensures WordAt(DATA, 0) == 0x706050403020100 && WordAt(DATA, 8) == 0xf0e0d0c0b0a0908
    ensures WordAt(DATA, 16) == 0x1716151413121110 && WordAt(DATA, 24) == 0x1f1e1d1c1b1a1918
    ensures WordAt(DATA, 32) == 0x2726252423222120 && LeValue(DATA[40..44]) == 0x2b2a2928
  {
    hide WordAt, LeValue;
    WordOfBytes(DATA, 0);
    WordOfBytes(DATA, 8);
    WordOfBytes(DATA, 16);
    WordOfBytes(DATA, 24);
    WordOfBytes(DATA, 32);
    FourBytes(DATA[40..44]);
  }

  lemma Lane1()
    ensures Round(0x60ea27eeadc0b5dd, 0x706050403020100) == 0x496e802fc06b5e99
  {
    hide Rotl, Wrap;
    WrapIs(0x60ea27eeadc0b5dd + 0x706050403020100 * PRIME_2, 0x55776c44c014a5b, 0x9c506bbe464a04dd);
    Rotl31(0x9c506bbe464a04dd, 0x4e2835df, 0x464a04dd);
    WrapIs(0x2325026ece2835df * PRIME_1, 0x15b87528c62ac2fb, 0x496e802fc06b5e99);
  }

  lemma Lane2()
    ensures Round(0xc2b2ae3d27d4eb56, 0xf0e0d0c0b0a0908) == 0x188c90299fc32561
  {
    hide Rotl, Wrap;
    WrapIs(0xc2b2ae3d27d4eb56 + 0xf0e0d0c0b0a0908 * PRIME_2, 0xb7327e7584c3ca8, 0xbcc205ae78d80cce);
    Rotl31(0xbcc205ae78d80cce, 0x5e6102d7, 0x78d80cce);
    WrapIs(0x3c6c06675e6102d7 * PRIME_1, 0x2557c3e221c835f7, 0x188c90299fc32561);
  }

  lemma Lane3()
    ensures Round(0x7, 0x1716151413121110) == 0x1fe004e048a1553f
  {
    hide Rotl, Wrap;
    WrapIs(0x7 + 0x1716151413121110 * PRIME_2, 0x118ed90a64972ef4, 0xb8b86b13097cf3f7);
    Rotl31(0xb8b86b13097cf3f7, 0x5c5c3589, 0x1097cf3f7);
    WrapIs(0x84be79fbdc5c3589 * PRIME_1, 0x520a534fbbe8dc63, 0x1fe004e048a1553f);
  }

  lemma Lane4()
    ensures Round(0x61c8864e7a143580, 0x1f1e1d1c1b1a1918) == 0xeefe14da27f91c07
  {
    hide Rotl, Wrap;
    WrapIs(0x61c8864e7a143580 + 0x1f1e1d1c1b1a1918 * PRIME_2, 0x17aa8a2d70e22141, 0xd92a05033c0afbe8);
    Rotl31(0xd92a05033c0afbe8, 0x6c950281, 0x13c0afbe8);
    WrapIs(0x9e057df46c950281 * PRIME_1, 0x61a9a20917864f5e, 0xeefe14da27f91c07);
  }

  lemma DataStart()
    ensures Start64(7) == Lanes(0x60ea27eeadc0b5dd, 0xc2b2ae3d27d4eb56,
                               0x7, 0x61c8864e7a143580)
  {
    hide Wrap;
    WrapIs(7 + PRIME_1 + PRIME_2, 0x1, 0x60ea27eeadc0b5dd);
    WrapIs(7 + PRIME_2, 0x0, 0xc2b2ae3d27d4eb56);
    WrapIs(7 - PRIME_1, -1, 0x61c8864e7a143580);
  }

  /** The lanes after the stripe. */
  lemma DataLanes()
    ensures Step64(Start64(7), DATA[..32])
         == Lanes(0x496e802fc06b5e99, 0x188c90299fc32561,
                  0x1fe004e048a1553f, 0xeefe14da27f91c07)
  {
    hide Round, WordAt, Start64, Step64;
    DataStart();
    StepIs(Start64(7), DATA);
    DataWords();
    Lane1();
    Lane2();
    Lane3();
    Lane4();
  }

  lemma DataSum()
    ensures Wrap(Rotl(0x496e802fc06b5e99, 1) + Rotl(0x188c90299fc32561, 7)
                 + Rotl(0x1fe004e048a1553f, 12) + Rotl(0xeefe14da27f91c07, 18)) == 0x2cdbb99de7dd1bb4
  {
    hide Rotl, Wrap;
    Rotl1(0x496e802fc06b5e99, 0x0, 0x496e802fc06b5e99);
    Rotl7(0x188c90299fc32561, 0xc, 0x8c90299fc32561);
    Rotl12(0x1fe004e048a1553f, 0x1fe, 0x4e048a1553f);
    Rotl18(0xeefe14da27f91c07, 0x3bbf8, 0x14da27f91c07);
    WrapIs(0x92dd005f80d6bd32 + 0x464814cfe192b08c + 0x4e048a1553f1fe + 0x53689fe4701fbbf8, 0x1, 0x2cdbb99de7dd1bb4);
  }

  lemma Merge1()
    ensures Merge(0x2cdbb99de7dd1bb4, 0x496e802fc06b5e99) == 0xc2cf95a92e37123a
  {
    hide Rotl, Xor, Wrap;
    WrapIs(0x496e802fc06b5e99 * PRIME_2, 0x37d8fdf3f6e7110a, 0x12e4a12796aca437);
    Rotl31(0x12e4a12796aca437, 0x9725093, 0x196aca437);
    WrapIs(0xcb56521b89725093 * PRIME_1, 0x7dab56e1709c000e, 0x1eb2c76904cd7b85);
    XorEight(0xb4, 0x1b, 0xdd, 0xe7, 0x9d, 0xb9, 0xdb, 0x2c,
             0x85, 0x7b, 0xcd, 0x04, 0x69, 0xc7, 0xb2, 0x1e);
    assert XorWord(0x2cdbb99de7dd1bb4, 0x1eb2c76904cd7b85) == 0x32697ef4e3106031;
    WrapIs(0x32697ef4e3106031 * PRIME_1 + PRIME_4, 0x1f2808fc3d12a835, 0xc2cf95a92e37123a);
  }

  lemma Merge2()
    ensures Merge(0xc2cf95a92e37123a, 0x188c90299fc32561) == 0xd509b134bc5623a2
  {
    hide Rotl, Xor, Wrap;
    WrapIs(0x188c90299fc32561 * PRIME_2, 0x12aba7b12f4f7173, 0x89df90ea2bdc93ef);
    Rotl31(0x89df90ea2bdc93ef, 0x44efc875, 0x2bdc93ef);
    WrapIs(0x15ee49f7c4efc875 * PRIME_1, 0xd8dd245a5f78d25, 0xfd74c434db0607b3);
    XorEight(0x3a, 0x12, 0x37, 0x2e, 0xa9, 0x95, 0xcf, 0xc2,
             0xb3, 0x07, 0x06, 0xdb, 0x34, 0xc4, 0x74, 0xfd);
    assert XorWord(0xc2cf95a92e37123a, 0xfd74c434db0607b3) == 0x3fbb519df5311589;
    WrapIs(0x3fbb519df5311589 * PRIME_1 + PRIME_4, 0x27636be9c1b214b7, 0xd509b134bc5623a2);
  }

  lemma Merge3()
    ensures Merge(0xd509b134bc5623a2, 0x1fe004e048a1553f) == 0xeaa37a29a4956053
  {
    hide Rotl, Xor, Wrap;
    WrapIs(0x1fe004e048a1553f * PRIME_2, 0x183e03273ba40124, 0xa9983f7cb4362371);
    Rotl31(0xa9983f7cb4362371, 0x54cc1fbe, 0xb4362371);
    WrapIs(0x5a1b11b8d4cc1fbe * PRIME_1, 0x37b03b9629465f28, 0xdd70549e221aa932);
    XorEight(0xa2, 0x23, 0x56, 0xbc, 0x34, 0xb1, 0x09, 0xd5,
             0x32, 0xa9, 0x1a, 0x22, 0x9e, 0x54, 0x70, 0xdd);
    assert XorWord(0xd509b134bc5623a2, 0xdd70549e221aa932) == 0x879e5aa9e4c8a90;
    WrapIs(0x879e5aa9e4c8a90 * PRIME_1 + PRIME_4, 0x53d11f7239fd2ac, 0xeaa37a29a4956053);
  }

  lemma Merge4()
    ensures Merge(0xeaa37a29a4956053, 0xeefe14da27f91c07) == 0x6b36d5ef7552129
  {
    hide Rotl, Xor, Wrap;
    WrapIs(0xeefe14da27f91c07 * PRIME_2, 0xb5c35b219be14cdd, 0x20932f3f49661329);
    Rotl31(0x20932f3f49661329, 0x1049979f, 0x149661329);
    WrapIs(0xa4b309949049979f * PRIME_1, 0x65ca30ab9571f9ee, 0x5b04f274f2676ad9);
    XorEight(0x53, 0x60, 0x95, 0xa4, 0x29, 0x7a, 0xa3, 0xea,
             0xd9, 0x6a, 0x67, 0xf2, 0x74, 0xf2, 0x04, 0x5b);
    assert XorWord(0xeaa37a29a4956053, 0x5b04f274f2676ad9) == 0xb1a7885d56f20a8a;
    WrapIs(0xb1a7885d56f20a8a * PRIME_1 + PRIME_4, 0x6dcbe59b48f02252, 0x6b36d5ef7552129);
  }

  lemma DataConverges()
    ensures Converge(Lanes(0x496e802fc06b5e99, 0x188c90299fc32561,
                           0x1fe004e048a1553f, 0xeefe14da27f91c07)) == 0x6b36d5ef7552129
  {
    hide Merge, Rotl, Converge;
    ConvergeIs(Lanes(0x496e802fc06b5e99, 0x188c90299fc32561,
                     0x1fe004e048a1553f, 0xeefe14da27f91c07));
    DataSum();
    Merge1();
    Merge2();
    Merge3();
    Merge4();
  }

  lemma DataWord()
    ensures Eat8(0x6b36d5ef7552156, 0x2726252423222120) == 0x2676b6262b031e41
  {
    hide Rotl, Xor, Wrap;
    WrapIs(0x2726252423222120 * PRIME_2, 0x1dc63b507d2d138e, 0x360a92567a7098e0);
    Rotl31(0x360a92567a7098e0, 0x1b05492b, 0x7a7098e0);
    WrapIs(0x3d384c701b05492b * PRIME_1, 0x25d6035facd78a66, 0x8e6d3b08ecfe83ad);
    XorEight(0x56, 0x21, 0x55, 0xf7, 0x5e, 0x6d, 0xb3, 0x06,
             0xad, 0x83, 0xfe, 0xec, 0x08, 0x3b, 0x6d, 0x8e);
    assert XorWord(0x6b36d5ef7552156, 0x8e6d3b08ecfe83ad) == 0x88de56561baba2fb;
    Rotl27(0x88de56561baba2fb, 0x446f2b2, 0x161baba2fb);
    WrapIs(0xb0dd5d17dc46f2b2 * PRIME_1 + PRIME_4, 0x6d4ef31700a7aa23, 0x2676b6262b031e41);
  }

  lemma DataHalf()
    ensures Eat4(0x2676b6262b031e41, 0x2b2a2928) == 0x33d8d635843b97f0
  {
    hide Rotl, Xor, Wrap;
    WrapIs(0x2b2a2928 * PRIME_1, 0x1aad5ffa, 0x63c705e3976d4418);
    XorEight(0x41, 0x1e, 0x03, 0x2b, 0x26, 0xb6, 0x76, 0x26,
             0x18, 0x44, 0x6d, 0x97, 0xe3, 0x05, 0xc7, 0x63);
    assert XorWord(0x2676b6262b031e41, 0x63c705e3976d4418) == 0x45b1b3c5bc6e5a59;
    Rotl23(0x45b1b3c5bc6e5a59, 0x22d8d9, 0x1c5bc6e5a59);
    WrapIs(0xe2de372d2ca2d8d9 * PRIME_2 + PRIME_3, 0xac8abebbd4fcd69f, 0x33d8d635843b97f0);
  }

  lemma DataByte()
    ensures Eat1(0x33d8d635843b97f0, 0x2c) == 0xf34a1d1e4588476
  {
    hide Rotl, Xor, Wrap;
    WrapIs(0x2c * PRIME_5, 0x6, 0xd8986c17d6d9d5dc);
    XorEight(0xf0, 0x97, 0x3b, 0x84, 0x35, 0xd6, 0xd8, 0x33,
             0xdc, 0xd5, 0xd9, 0xd6, 0x17, 0x6c, 0x98, 0xd8);
    assert XorWord(0x33d8d635843b97f0, 0xd8986c17d6d9d5dc) == 0xeb40ba2252e2422c;
    Rotl11(0xeb40ba2252e2422c, 0x75a, 0xba2252e2422c);
    WrapIs(0x5d112971211675a * PRIME_1, 0x3984c2815fddbb3, 0xf34a1d1e4588476);
  }

  lemma DataAvalanche()
    ensures Avalanche(0xf34a1d1e4588476) == 0xe4ed0032f0c9066a
  {
    hide Xor, Wrap;
    XorEight(0x76, 0x84, 0x58, 0xe4, 0xd1, 0xa1, 0x34, 0x0f,
             0xe8, 0x50, 0x9a, 0x07, 0x00, 0x00, 0x00, 0x00);
    assert XorWord(0xf34a1d1e4588476, 0x79a50e8) == 0xf34a1d1e3c2d49e;
    WrapIs(0xf34a1d1e3c2d49e * PRIME_2, 0xb907f92fa6ee4a0, 0x4118f53b4724a6c2);
    XorEight(0xc2, 0xa6, 0x24, 0x47, 0x3b, 0xf5, 0x18, 0x41,
             0xda, 0xa9, 0xc7, 0x08, 0x02, 0x00, 0x00, 0x00);
    assert XorWord(0x4118f53b4724a6c2, 0x208c7a9da) == 0x4118f5394fe30f18;
    WrapIs(0x4118f5394fe30f18 * PRIME_3, 0x5ae1dd383457811, 0xe4ed003214240658);
    XorEight(0x58, 0x06, 0x24, 0x14, 0x32, 0x00, 0xed, 0xe4,
             0x32, 0x00, 0xed, 0xe4, 0x00, 0x00, 0x00, 0x00);
    assert XorWord(0xe4ed003214240658, 0xe4ed0032) == 0xe4ed0032f0c9066a;
  }

  /** The known answer for the 45 bytes. */
  lemma DataAnswer()
    ensures Xxh64.Xxh64(DATA, 7) == 0xe4ed0032f0c9066a
  {
    hide Avalanche, Converge, Start64, Step64, Short, AddLength, Eat8, Eat4, Eat1, EatRest, EatBytes, WordAt, LeValue;
    var d := DATA[32..];
    RestStep(32, DATA);
    RestShort(32, d);
    assert Fold(Step64, 32, Step64(Start64(7), DATA[..32]), d) == Step64(Start64(7), DATA[..32]);
    DataLanes();
    DataConverges();
    DataLength();
    DataTail(d);
    DataAvalanche();
  }

  lemma DataLength()
    ensures AddLength(0x6b36d5ef7552129, Wrap(|DATA|)) == 0x6b36d5ef7552156
  {
  }

  lemma DataTail(d: seq<Byte>)
    requires d == DATA[32..]
    ensures EatRest(0x6b36d5ef7552156, d) == 0xf34a1d1e4588476
  {
    hide Eat8, Eat4, Eat1, EatRest, EatBytes, WordAt, LeValue;
    DataWords();
    DataWord();
    DataHalf();
    DataByte();
    RestIs(0x6b36d5ef7552156, d);
    SameWord(d);
    var e := d[8..];
    assert e[..4] == DATA[40..44] && e[4..] == [44] && [44][1..] == [];
    RestIs(0x2676b6262b031e41, e);
    BytesAre(0x33d8d635843b97f0, [44]);
    BytesAre(0xf34a1d1e4588476, []);
  }

  lemma SameWord(d: seq<Byte>)
    requires d == DATA[32..]
    ensures WordAt(d, 0) == WordAt(DATA, 32)
  {
    hide LeValue;
    assert d[0..8] == DATA[32..40];
  }

  lemma EmptyAvalanche()
    ensures Avalanche(0x27d4eb2f165667c5) == 0xef46db3751d8e999
  {
    hide Xor, Wrap;
    XorEight(0xc5, 0x67, 0x56, 0x16, 0x2f, 0xeb, 0xd4, 0x27,
             0x97, 0x75, 0xea, 0x13, 0x00, 0x00, 0x00, 0x00);
    assert XorWord(0x27d4eb2f165667c5, 0x13ea7597) == 0x27d4eb2f05bc1252;
    WrapIs(0x27d4eb2f05bc1252 * PRIME_2, 0x1e4b276164d31384, 0xbeb13dda13c2ed4e);
    XorEight(0x4e, 0xed, 0xc2, 0x13, 0xda, 0x3d, 0xb1, 0xbe,
             0xd0, 0xee, 0x89, 0xf5, 0x05, 0x00, 0x00, 0x00);
    assert XorWord(0xbeb13dda13c2ed4e, 0x5f589eed0) == 0xbeb13ddfe64b039e;
    WrapIs(0xbeb13ddfe64b039e * PRIME_3, 0x10a39819a54d6418, 0xef46db37be9e32ae);
    XorEight(0xae, 0x32, 0x9e, 0xbe, 0x37, 0xdb, 0x46, 0xef,
             0x37, 0xdb, 0x46, 0xef, 0x00, 0x00, 0x00, 0x00);
    assert XorWord(0xef46db37be9e32ae, 0xef46db37) == 0xef46db3751d8e999;
  }

  /** The known answer for no bytes. */
  lemma EmptyAnswer()
    ensures Xxh64.Xxh64([], 0) == 0xef46db3751d8e999
  {
    hide Avalanche, Converge, Start64, Step64, Short, AddLength, EatRest, EatBytes;
    RestShort(32, []);
    EmptyLength();
    RestIs(0x27d4eb2f165667c5, []);
    BytesAre(0x27d4eb2f165667c5, []);
    EmptyAvalanche();
  }

  lemma EmptyLength()
    ensures AddLength(Short(0), Wrap(0)) == 0x27d4eb2f165667c5
  {
  }
}
