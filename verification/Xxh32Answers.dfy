/**
 * XXH32 pinned down from outside: its rotations move bits, and two known answers between them
 * reach the lanes, the words, the single bytes and the avalanche.
 */
module Xxh32Answers {
  import opened Words
  import opened Bytes
  import opened Bitwise
  import opened WordBits
  import opened XxhStream
  import opened Xxh32

  /** Rotl joins the low part and the high part of x the other way round. */
  lemma RotlParts(x: Word32, r: nat, hi: nat, lo: nat)
    requires r <= 32 && x == Pow2(32 - r) * hi + lo && lo < Pow2(32 - r)
    ensures hi < Pow2(r) && Pow2(r) * lo >= 0 && Rotl(x, r) == Pow2(r) * lo + hi
  {
    hide Pow2;
    Pow2Of32();
    Pow2Sum(r, 32 - r);
    DivUnique(x, Pow2(32 - r), hi, lo);
    RotlValue(x, Pow2(r), Pow2(32 - r), hi, lo);
  }

  lemma RotlValue(x: Word32, p: nat, q: nat, hi: nat, lo: nat)
    requires p > 0 && q > 0 && p * q == 0x1_0000_0000 && x == q * hi + lo && lo < q
    ensures hi < p && p * lo >= 0 && Wrap32(Wrap32(x * p) + hi) == p * lo + hi
  {
    hide Wrap32;
    MulBounds(hi - p, q);
    ProductLe(lo + 1, p, q, p);
    assert (q * hi + lo) * p == (p * q) * hi + p * lo;
    Wrap32Is(x * p, hi, p * lo);
    Wrap32Is(p * lo + hi, 0, p * lo + hi);
  }

  /** XXH_rotl32 is the rotation: bit k comes from bit k - r modulo 32. */
  lemma RotlBits(x: Word32, r: nat, k: nat)
    requires r <= 32 && k < 32
    ensures BitAt(Rotl(x, r), k) == BitAt(x, if k < r then k + 32 - r else k - r)
  {
    hide Rotl, Pow2, BitAt;
    var q := Pow2(32 - r);
    RotlParts(x, r, x / q, x % q);
    RotatedBits(x / q, x % q, 32, r, k);
  }

  // Rotations of given values.

  lemma Rotl1(x: Word32, hi: nat, lo: nat)
    requires x == 0x80000000 * hi + lo && lo < 0x80000000
    ensures Rotl(x, 1) == 0x2 * lo + hi
  {
    hide Pow2, Rotl;
    Powers();
    RotlParts(x, 1, hi, lo);
  }

  lemma Rotl7(x: Word32, hi: nat, lo: nat)
    requires x == 0x2000000 * hi + lo && lo < 0x2000000
    ensures Rotl(x, 7) == 0x80 * lo + hi
  {
    hide Pow2, Rotl;
    Powers();
    RotlParts(x, 7, hi, lo);
  }

  lemma Rotl11(x: Word32, hi: nat, lo: nat)
    requires x == 0x200000 * hi + lo && lo < 0x200000
    ensures Rotl(x, 11) == 0x800 * lo + hi
  {
    hide Pow2, Rotl;
    Powers();
    RotlParts(x, 11, hi, lo);
  }

  lemma Rotl12(x: Word32, hi: nat, lo: nat)
    requires x == 0x100000 * hi + lo && lo < 0x100000
    ensures Rotl(x, 12) == 0x1000 * lo + hi
  {
    hide Pow2, Rotl;
    Powers();
    RotlParts(x, 12, hi, lo);
  }

  lemma Rotl13(x: Word32, hi: nat, lo: nat)
    requires x == 0x80000 * hi + lo && lo < 0x80000
    ensures Rotl(x, 13) == 0x2000 * lo + hi
  {
    hide Pow2, Rotl;
    Powers();
    RotlParts(x, 13, hi, lo);
  }

  lemma Rotl17(x: Word32, hi: nat, lo: nat)
    requires x == 0x8000 * hi + lo && lo < 0x8000
    ensures Rotl(x, 17) == 0x20000 * lo + hi
  {
    hide Pow2, Rotl;
    Powers();
    RotlParts(x, 17, hi, lo);
  }

  lemma Rotl18(x: Word32, hi: nat, lo: nat)
    requires x == 0x4000 * hi + lo && lo < 0x4000
    ensures Rotl(x, 18) == 0x40000 * lo + hi
  {
    hide Pow2, Rotl;
    Powers();
    RotlParts(x, 18, hi, lo);
  }

  lemma Powers()
    ensures Pow2(1) == 0x2 && Pow2(7) == 0x80 && Pow2(11) == 0x800
    ensures Pow2(12) == 0x1000 && Pow2(13) == 0x2000 && Pow2(14) == 0x4000
    ensures Pow2(15) == 0x8000 && Pow2(17) == 0x20000 && Pow2(18) == 0x40000
    ensures Pow2(19) == 0x80000 && Pow2(20) == 0x100000 && Pow2(21) == 0x200000
    ensures Pow2(25) == 0x2000000 && Pow2(31) == 0x80000000
  {
    hide Pow2;
    Pow2Small();
    Pow2Bytes();
    Pow2Sum(8, 3);
    Pow2Sum(8, 4);
    Pow2Sum(8, 5);
    Pow2Sum(8, 6);
    Pow2Sum(8, 7);
    Pow2Sum(16, 1);
    Pow2Sum(16, 2);
    Pow2Sum(16, 3);
    Pow2Sum(16, 4);
    Pow2Sum(16, 5);
    Pow2Sum(24, 1);
    Pow2Sum(24, 7);
  }

  // The message of 21 bytes 0, 1, 2, ... under the seed 7.

  const DATA: seq<Byte> := seq(21, i => i)

  /** Its words. */
  lemma DataWords()
    ensures Read(DATA, 0) == 0x3020100 && Read(DATA, 4) == 0x7060504
    ensures Read(DATA, 8) == 0xb0a0908 && Read(DATA, 12) == 0xf0e0d0c
    ensures Read(DATA, 16) == 0x13121110
  {
    hide LeValue;
    FourBytes(DATA[0..4]);
    FourBytes(DATA[4..8]);
    FourBytes(DATA[8..12]);
    FourBytes(DATA[12..16]);
    FourBytes(DATA[16..20]);
  }

  lemma Lane1()
    ensures Round(0x2423442f, 0x3020100) == 0x82929ccb
  {
    hide Rotl, Wrap32;
    Wrap32Is(0x2423442f + 0x3020100 * PRIME_2, 0x192cfbd, 0x9dbbb2f);
    Rotl13(0x9dbbb2f, 0x13b, 0x3bb2f);
    Wrap32Is(0x7765e13b * PRIME_1, 0x49cac0a7, 0x82929ccb);
  }

  lemma Lane2()
    ensures Round(0x85ebca7e, 0x7060504) == 0x8c9d519b
  {
    hide Rotl, Wrap32;
    Wrap32Is(0x85ebca7e + 0x7060504 * PRIME_2, 0x3ac98b0, 0x3859475a);
    Rotl13(0x3859475a, 0x70b, 0x1475a);
    Wrap32Is(0x28eb470b * PRIME_1, 0x194a13d8, 0x8c9d519b);
  }

  lemma Lane3()
    ensures Round(0x7, 0xb0a0908) == 0x5f2ba0a4
  {
    hide Rotl, Wrap32;
    Wrap32Is(0x7 + 0xb0a0908 * PRIME_2, 0x5c661a2, 0x7f2282bf);
    Rotl13(0x7f2282bf, 0xfe4, 0x282bf);
    Wrap32Is(0x5057efe4 * PRIME_1, 0x31a7af24, 0x5f2ba0a4);
  }

  lemma Lane4()
    ensures Round(0x61c88656, 0xf0e0d0c) == 0x69365574
  {
    hide Rotl, Wrap32;
    Wrap32Is(0x61c88656 + 0xf0e0d0c * PRIME_2, 0x7e02a95, 0xada00eea);
    Rotl13(0xada00eea, 0x15b4, 0xeea);
    Wrap32Is(0x1dd55b4 * PRIME_1, 0x1270255, 0x69365574);
  }

  lemma DataStart()
    ensures Start32(7) == Lanes(0x2423442f, 0x85ebca7e,
                               0x7, 0x61c88656)
  {
    hide Wrap32;
    Wrap32Is(7 + PRIME_1 + PRIME_2, 0x1, 0x2423442f);
    Wrap32Is(7 + PRIME_2, 0x0, 0x85ebca7e);
    Wrap32Is(7 - PRIME_1, -1, 0x61c88656);
  }

  /** The lanes after the stripe. */
  lemma DataLanes()
    ensures Step32(Start32(7), DATA[..16])
         == Lanes(0x82929ccb, 0x8c9d519b,
                  0x5f2ba0a4, 0x69365574)
  {
    hide Round, Read, Start32, Step32;
    DataStart();
    StepIs(Start32(7), DATA);
    DataWords();
    Lane1();
    Lane2();
    Lane3();
    Lane4();
  }

  lemma DataSum()
    ensures Wrap32(Rotl(0x82929ccb, 1) + Rotl(0x8c9d519b, 7)
                 + Rotl(0x5f2ba0a4, 12) + Rotl(0x69365574, 18)) == 0x63a9f228
  {
    hide Rotl, Wrap32;
    Rotl1(0x82929ccb, 0x1, 0x2929ccb);
    Rotl7(0x8c9d519b, 0x46, 0x9d519b);
    Rotl12(0x5f2ba0a4, 0x5f2, 0xba0a4);
    Rotl18(0x69365574, 0x1a4d9, 0x1574);
    Wrap32Is(0x5253997 + 0x4ea8cdc6 + 0xba0a45f2 + 0x55d1a4d9, 0x1, 0x63a9f228);
  }

  lemma DataConverges()
    ensures Converge(Lanes(0x82929ccb, 0x8c9d519b,
                           0x5f2ba0a4, 0x69365574)) == 0x63a9f228
  {
    hide Rotl, Wrap32;
    DataSum();
  }

  lemma DataWord()
    ensures Eat4(0x63a9f23d, 0x13121110) == 0xff1305cf
  {
    hide Rotl, Wrap32;
    Wrap32Is(0x63a9f23d + 0x13121110 * PRIME_3, 0xe810079, 0x33b0e30d);
    Rotl17(0x33b0e30d, 0x6761, 0x630d);
    Wrap32Is(0xc61a6761 * PRIME_4, 0x1ed2c99b, 0xff1305cf);
  }

  lemma DataByte()
    ensures Eat1(0xff1305cf, 0x14) == 0xbc492f8e
  {
    hide Rotl, Wrap32;
    Wrap32Is(0xff1305cf + 0x14 * PRIME_5, 0x2, 0xbdd31fa3);
    Rotl11(0xbdd31fa3, 0x5ee, 0x131fa3);
    Wrap32Is(0x98fd1dee * PRIME_1, 0x5e8d5f93, 0xbc492f8e);
  }

  lemma DataAvalanche()
    ensures Avalanche(0xbc492f8e) == 0x17e93369
  {
    hide Xor, Wrap32;
    XorEight(0x8e, 0x2f, 0x49, 0xbc, 0x00, 0x00, 0x00, 0x00,
             0x92, 0x78, 0x01, 0x00, 0x00, 0x00, 0x00, 0x00);
    assert Xor32(0xbc492f8e, 0x17892) == 0xbc48571c;
    Wrap32Is(0xbc48571c * PRIME_2, 0x627f0092, 0x1d109604);
    XorEight(0x04, 0x96, 0x10, 0x1d, 0x00, 0x00, 0x00, 0x00,
             0x84, 0xe8, 0x00, 0x00, 0x00, 0x00, 0x00, 0x00);
    assert Xor32(0x1d109604, 0xe884) == 0x1d107e80;
    Wrap32Is(0x1d107e80 * PRIME_3, 0x161ac91d, 0x17e92480);
    XorEight(0x80, 0x24, 0xe9, 0x17, 0x00, 0x00, 0x00, 0x00,
             0xe9, 0x17, 0x00, 0x00, 0x00, 0x00, 0x00, 0x00);
    assert Xor32(0x17e92480, 0x17e9) == 0x17e93369;
  }

  /** The known answer for the 21 bytes. */
  lemma DataAnswer()
    ensures Xxh32.Xxh32(DATA, 7) == 0x17e93369
  {
    hide Avalanche, Converge, Start32, Step32, Short, AddLength, Eat4, Eat1, EatRest, EatBytes, Read, LeValue;
    var d := DATA[16..];
    RestStep(16, DATA);
    RestShort(16, d);
    assert Fold(Step32, 16, Step32(Start32(7), DATA[..16]), d) == Step32(Start32(7), DATA[..16]);
    DataLanes();
    DataConverges();
    DataLength();
    DataTail(d);
    DataAvalanche();
  }

  lemma DataLength()
    ensures AddLength(0x63a9f228, Wrap(|DATA|)) == 0x63a9f23d
  {
  }

  lemma DataTail(d: seq<Byte>)
    requires d == DATA[16..]
    ensures EatRest(0x63a9f23d, d) == 0xbc492f8e
  {
    hide Eat4, Eat1, EatRest, EatBytes, Read, LeValue;
    DataWords();
    DataWord();
    DataByte();
    RestIs(0x63a9f23d, d);
    SameWord(d);
    assert d[4..] == [20] && [20][1..] == [];
    RestIs(0xff1305cf, [20]);
    BytesAre(0xff1305cf, [20]);
    BytesAre(0xbc492f8e, []);
  }

  lemma SameWord(d: seq<Byte>)
    requires d == DATA[16..]
    ensures Read(d, 0) == Read(DATA, 16)
  {
    hide LeValue;
    assert d[0..4] == DATA[16..20];
  }

  lemma EmptyAvalanche()
    ensures Avalanche(0x165667b1) == 0x2cc5d05
  {
    hide Xor, Wrap32;
    XorEight(0xb1, 0x67, 0x56, 0x16, 0x00, 0x00, 0x00, 0x00,
             0xac, 0x2c, 0x00, 0x00, 0x00, 0x00, 0x00, 0x00);
    assert Xor32(0x165667b1, 0x2cac) == 0x16564b1d;
    Wrap32Is(0x16564b1d * PRIME_2, 0xbaf67e7, 0x7e00cc7b);
    XorEight(0x7b, 0xcc, 0x00, 0x7e, 0x00, 0x00, 0x00, 0x00,
             0x06, 0xf0, 0x03, 0x00, 0x00, 0x00, 0x00, 0x00);
    assert Xor32(0x7e00cc7b, 0x3f006) == 0x7e033c7d;
    Wrap32Is(0x7e033c7d * PRIME_3, 0x5fd667db, 0x2cc5fc9);
    XorEight(0xc9, 0x5f, 0xcc, 0x02, 0x00, 0x00, 0x00, 0x00,
             0xcc, 0x02, 0x00, 0x00, 0x00, 0x00, 0x00, 0x00);
    assert Xor32(0x2cc5fc9, 0x2cc) == 0x2cc5d05;
  }

  /** The known answer for no bytes. */
  lemma EmptyAnswer()
    ensures Xxh32.Xxh32([], 0) == 0x2cc5d05
  {
    hide Avalanche, Converge, Start32, Step32, Short, AddLength, EatRest, EatBytes;
    RestShort(16, []);
    EmptyLength();
    RestIs(0x165667b1, []);
    BytesAre(0x165667b1, []);
    EmptyAvalanche();
  }

  lemma EmptyLength()
    ensures AddLength(Short(0), Wrap(0)) == 0x165667b1
  {
  }
}
