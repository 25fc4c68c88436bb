/** The bits of a value: rotations move them, and exclusive or can be evaluated byte by byte. */
module WordBits {
  import opened Words
  import opened Bytes
  import opened Bitwise

  lemma Twice(p: int, x: int)
    ensures (2 * p) * x == 2 * (p * x)
  {
  }

  lemma HalfOf(x: int, y: int, a: int, b: int)
    ensures (2 * x + a) / 2 == x + a / 2 && (2 * x + a + (2 * y + b)) % 2 == (a + b) % 2
  {
  }

  lemma LowBit(x: nat, y: nat, a: nat, b: nat)
    ensures Xor(2 * x + a, 2 * y + b) == (a + b) % 2 + 2 * Xor(x + a / 2, y + b / 2)
  {
    hide Xor;
    XorStep(2 * x + a, 2 * y + b);
    HalfOf(x, y, a, b);
    HalfOf(y, x, b, a);
  }

  /** The low n bits and the others are combined separately. */
  lemma {:induction false} XorSplit(x: nat, y: nat, a: nat, b: nat, n: nat)
    requires a < Pow2(n) && b < Pow2(n)
    ensures Pow2(n) * x >= 0 && Pow2(n) * y >= 0
    ensures Xor(Pow2(n) * x + a, Pow2(n) * y + b) == Pow2(n) * Xor(x, y) + Xor(a, b)
  {
    hide Xor;
    MulBounds(x, Pow2(n));
    MulBounds(y, Pow2(n));
    if n == 0 {
      assert Pow2(0) == 1;
      XorZero(0);
    } else {
      var p := Pow2(n - 1);
      Twice(p, x);
      Twice(p, y);
      Twice(p, Xor(x, y));
      XorSplit(x, y, a / 2, b / 2, n - 1);
      LowBit(p * x, p * y, a, b);
      XorStep(a, b);
    }
  }

  /** Bit k of x. */
  function BitAt(x: nat, k: nat): nat {
    if k == 0 then x % 2 else BitAt(x / 2, k - 1)
  }

  /** Exclusive or works on each bit. */
  lemma {:induction false} XorBit(x: nat, y: nat, k: nat)
    ensures BitAt(Xor(x, y), k) == (BitAt(x, k) + BitAt(y, k)) % 2
    decreases k
  {
    hide Xor;
    XorStep(x, y);
    if k > 0 { XorBit(x / 2, y / 2, k - 1); }
  }

  /** The bits of a value put together from n low bits and the others. */
  lemma {:induction false} BitOfJoin(x: nat, a: nat, n: nat, k: nat)
    requires a < Pow2(n)
    ensures Pow2(n) * x >= 0 && BitAt(Pow2(n) * x + a, k) == if k < n then BitAt(a, k) else BitAt(x, k - n)
  {
    MulBounds(x, Pow2(n));
    if n == 0 {
      assert Pow2(0) == 1;
    } else {
      var p := Pow2(n - 1);
      Twice(p, x);
      MulBounds(x, p);
      HalfOf(p * x, 0, a, 0);
      if k > 0 { BitOfJoin(x, a / 2, n - 1, k - 1); }
    }
  }

  /** A value of n bits rotated to the left by r: the r high bits hi come in at the bottom. */
  lemma RotatedBits(hi: nat, lo: nat, n: nat, r: nat, k: nat)
    requires r <= n && k < n && hi < Pow2(r) && lo < Pow2(n - r)
    ensures Pow2(n - r) * hi >= 0 && Pow2(r) * lo >= 0
    ensures BitAt(Pow2(r) * lo + hi, k) == BitAt(Pow2(n - r) * hi + lo, if k < r then k + (n - r) else k - r)
  {
    BitOfJoin(lo, hi, r, k);
    BitOfJoin(hi, lo, n - r, if k < r then k + (n - r) else k - r);
  }

  // On bytes, the definition is the operation on bit-vectors.

  lemma HalfByte(b: bv8)
    ensures b as nat == 2 * ((b >> 1) as nat) + (b & 1) as nat && (b & 1) as nat <= 1
  {
  }

  lemma XorHalves(a: bv8, b: bv8)
    ensures (a ^ b) >> 1 == (a >> 1) ^ (b >> 1) && ((a ^ b) & 1) as nat == ((a & 1) as nat + (b & 1) as nat) % 2
  {
  }

  lemma XorParts(a: nat, b: nat, x: nat, y: nat, c: nat, d: nat)
    requires a == 2 * x + c && b == 2 * y + d && c <= 1 && d <= 1
    ensures Xor(a, b) == (c + d) % 2 + 2 * Xor(x, y)
  {
    hide Xor;
    XorStep(a, b);
  }

  lemma XorByteStep(a: bv8, b: bv8)
    requires Xor((a >> 1) as nat, (b >> 1) as nat) == ((a >> 1) ^ (b >> 1)) as nat
    ensures Xor(a as nat, b as nat) == (a ^ b) as nat
  {
    hide Xor;
    HalfByte(a);
    HalfByte(b);
    HalfByte(a ^ b);
    XorHalves(a, b);
    XorParts(a as nat, b as nat, (a >> 1) as nat, (b >> 1) as nat, (a & 1) as nat, (b & 1) as nat);
  }

  lemma ZeroByte(a: bv8)
    requires a as nat < 1
    ensures a == 0
  {
  }

  lemma {:induction false} XorByte(a: bv8, b: bv8, n: nat)
    requires a as nat < Pow2(n) && b as nat < Pow2(n)
    ensures Xor(a as nat, b as nat) == (a ^ b) as nat
  {
    hide Xor;
    if n == 0 {
      assert Pow2(0) == 1;
      ZeroByte(a);
      ZeroByte(b);
      XorZero(0);
    } else {
      ShiftedBelow(a, n);
      ShiftedBelow(b, n);
      XorByte(a >> 1, b >> 1, n - 1);
      XorByteStep(a, b);
    }
  }

  lemma ShiftedBelow(a: bv8, n: nat)
    requires n > 0 && a as nat < Pow2(n)
    ensures (a >> 1) as nat < Pow2(n - 1)
  {
    HalfByte(a);
  }

  lemma XorSplit8(x: nat, y: nat, a: nat, b: nat)
    requires a < 0x100 && b < 0x100
    ensures Xor(0x100 * x + a, 0x100 * y + b) == 0x100 * Xor(x, y) + Xor(a, b)
  {
    hide Xor;
    assert Pow2(8) == 0x100;
    XorSplit(x, y, a, b, 8);
  }

  /** Values of eight bytes. */
  lemma XorOfEight(a0: Byte, a1: Byte, a2: Byte, a3: Byte, a4: Byte, a5: Byte, a6: Byte, a7: Byte,
                   b0: Byte, b1: Byte, b2: Byte, b3: Byte, b4: Byte, b5: Byte, b6: Byte, b7: Byte)
    ensures Xor(Eight(a0, a1, a2, a3, a4, a5, a6, a7), Eight(b0, b1, b2, b3, b4, b5, b6, b7))
         == Eight(Xor(a0, b0), Xor(a1, b1), Xor(a2, b2), Xor(a3, b3),
                  Xor(a4, b4), Xor(a5, b5), Xor(a6, b6), Xor(a7, b7))
  {
    hide Xor;
    var x6: nat, y6: nat := 0x100 * (a7 as int) + a6, 0x100 * (b7 as int) + b6;
    var x5: nat, y5: nat := 0x100 * x6 + a5, 0x100 * y6 + b5;
    var x4: nat, y4: nat := 0x100 * x5 + a4, 0x100 * y5 + b4;
    var x3: nat, y3: nat := 0x100 * x4 + a3, 0x100 * y4 + b3;
    var x2: nat, y2: nat := 0x100 * x3 + a2, 0x100 * y3 + b2;
    var x1: nat, y1: nat := 0x100 * x2 + a1, 0x100 * y2 + b1;
    XorSplit8(a7, b7, a6, b6);
    XorSplit8(x6, y6, a5, b5);
    XorSplit8(x5, y5, a4, b4);
    XorSplit8(x4, y4, a3, b3);
    XorSplit8(x3, y3, a2, b2);
    XorSplit8(x2, y2, a1, b1);
    XorSplit8(x1, y1, a0, b0);
  }

  function ByteOf(b: bv8): Byte { b as nat }
  function XorBits(a: bv8, b: bv8): bv8 { a ^ b }

  lemma XorOfByte(a: bv8, b: bv8)
    ensures Xor(ByteOf(a), ByteOf(b)) == ByteOf(XorBits(a, b))
  {
    hide Xor;
    assert Pow2(8) == 0x100;
    XorByte(a, b, 8);
  }

  /** A result with its quotient is what the word keeps. */
  lemma WrapIs(x: int, k: int, r: int)
    requires x == 0x1_0000_0000_0000_0000 * k + r && 0 <= r < 0x1_0000_0000_0000_0000
    ensures Wrap(x) == r
  {
  }

  lemma Wrap32Is(x: int, k: int, r: int)
    requires x == 0x1_0000_0000 * k + r && 0 <= r < 0x1_0000_0000
    ensures Wrap32(x) == r
  {
  }

  /** The value of eight bytes, lowest first. */
  function Value8(a0: bv8, a1: bv8, a2: bv8, a3: bv8, a4: bv8, a5: bv8, a6: bv8, a7: bv8): int {
    Eight(ByteOf(a0), ByteOf(a1), ByteOf(a2), ByteOf(a3), ByteOf(a4), ByteOf(a5), ByteOf(a6), ByteOf(a7))
  }

  /** Exclusive or of two values given by their bytes, lowest first. */
  lemma XorEight(a0: bv8, a1: bv8, a2: bv8, a3: bv8, a4: bv8, a5: bv8, a6: bv8, a7: bv8,
                 b0: bv8, b1: bv8, b2: bv8, b3: bv8, b4: bv8, b5: bv8, b6: bv8, b7: bv8)
    ensures var x, y := Value8(a0, a1, a2, a3, a4, a5, a6, a7), Value8(b0, b1, b2, b3, b4, b5, b6, b7);
            x >= 0 && y >= 0
            && Xor(x, y) == Value8(XorBits(a0, b0), XorBits(a1, b1), XorBits(a2, b2), XorBits(a3, b3),
                                   XorBits(a4, b4), XorBits(a5, b5), XorBits(a6, b6), XorBits(a7, b7))
  {
    hide Xor, ByteOf, XorBits;
    XorOfByte(a0, b0);
    XorOfByte(a1, b1);
    XorOfByte(a2, b2);
    XorOfByte(a3, b3);
    XorOfByte(a4, b4);
    XorOfByte(a5, b5);
    XorOfByte(a6, b6);
    XorOfByte(a7, b7);
    XorOfEight(ByteOf(a0), ByteOf(a1), ByteOf(a2), ByteOf(a3), ByteOf(a4), ByteOf(a5), ByteOf(a6), ByteOf(a7),
               ByteOf(b0), ByteOf(b1), ByteOf(b2), ByteOf(b3), ByteOf(b4), ByteOf(b5), ByteOf(b6), ByteOf(b7));
  }
}
