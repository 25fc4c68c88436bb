/** Bitwise operations on naturals, and the masks that constant-time code builds from a flag. */
module Bitwise {
  import opened Words

  function Xor(x: nat, y: nat): nat
    decreases x + y
  {
    if x == 0 && y == 0 then 0 else (x + y) % 2 + 2 * Xor(x / 2, y / 2)
  }

  function And(x: nat, y: nat): nat
    decreases x + y
  {
    if x == 0 || y == 0 then 0 else (if x % 2 == 1 && y % 2 == 1 then 1 else 0) + 2 * And(x / 2, y / 2)
  }

  function Or(x: nat, y: nat): nat
    decreases x + y
  {
    if x == 0 && y == 0 then 0 else (if x % 2 == 1 || y % 2 == 1 then 1 else 0) + 2 * Or(x / 2, y / 2)
  }

  lemma {:induction false} XorBound(x: nat, y: nat, n: nat)
    requires x < Pow2(n) && y < Pow2(n)
    ensures Xor(x, y) < Pow2(n)
  {
    if n > 0 {
      XorBound(x / 2, y / 2, n - 1);
    } else {
      assert Pow2(0) == 1;
    }
  }

  lemma {:induction false} XorZero(x: nat)
    ensures Xor(x, 0) == x && Xor(0, x) == x && Or(x, 0) == x && Or(0, x) == x && And(x, 0) == 0 && And(0, x) == 0
  {
    if x > 0 { XorZero(x / 2); }
  }

  lemma {:induction false} XorIsZero(x: nat, y: nat)
    ensures Xor(x, y) == 0 <==> x == y
    decreases x + y
  {
    if x != 0 || y != 0 { XorIsZero(x / 2, y / 2); }
  }

  lemma {:induction false} XorTwice(x: nat, y: nat)
    ensures Xor(x, Xor(x, y)) == y && Xor(y, Xor(x, y)) == x
    decreases x + y
  {
    hide Xor;
    if x == 0 && y == 0 {
      XorZero(0);
    } else {
      var z, w := Xor(x, y), Xor(x / 2, y / 2);
      XorTwice(x / 2, y / 2);
      XorStep(x, y);
      Parity(x, y, w);
      Parity(y, x, w);
      XorStep(x, z);
      XorStep(y, z);
    }
  }

  lemma Parity(x: nat, y: nat, w: nat)
    ensures var z := (x + y) % 2 + 2 * w; z / 2 == w && (x + z) % 2 == y % 2
  {
  }

  lemma XorStep(x: nat, y: nat)
    ensures Xor(x, y) == (x + y) % 2 + 2 * Xor(x / 2, y / 2)
  {
    if x == 0 && y == 0 { assert Xor(0, 0) == 0; }
  }

  lemma AndStep(x: nat, y: nat)
    ensures And(x, y) == (if x % 2 == 1 && y % 2 == 1 then 1 else 0) + 2 * And(x / 2, y / 2)
  {
    if x == 0 || y == 0 { assert And(x / 2, y / 2) == 0; }
  }

  lemma OrStep(x: nat, y: nat)
    ensures Or(x, y) == (if x % 2 == 1 || y % 2 == 1 then 1 else 0) + 2 * Or(x / 2, y / 2)
  {
    if x == 0 && y == 0 { assert Or(0, 0) == 0; }
  }

  /** The low n bits. */
  lemma {:induction false} AndLow(x: nat, n: nat)
    ensures And(x, Pow2(n) - 1) == x % Pow2(n)
  {
    hide And;
    AndStep(x, Pow2(n) - 1);
    if n == 0 {
      assert Pow2(0) == 1;
      XorZero(x);
    } else {
      OddHalves(x, Pow2(n - 1) - 1);
      AndLow(x / 2, n - 1);
      ModTwice(x, Pow2(n - 1));
    }
  }

  /** Bit n set in a value below 2^(n+1). */
  lemma {:induction false} OrBit(x: nat, n: nat)
    requires x < Pow2(n + 1)
    ensures Or(x, Pow2(n)) == Pow2(n) + x % Pow2(n)
  {
    hide Or;
    OrStep(x, Pow2(n));
    if n == 0 {
      assert Pow2(0) == 1 && Pow2(1) == 2;
      XorZero(0);
    } else {
      OrBit(x / 2, n - 1);
      ModTwice(x, Pow2(n - 1));
    }
  }

  lemma ModTwice(x: nat, p: nat)
    requires p > 0
    ensures x % (2 * p) == x % 2 + 2 * (x / 2 % p)
  {
    var q, r := x / 2 / p, x / 2 % p;
    assert x == 2 * (x / 2) + x % 2 && x / 2 == q * p + r;
    assert x == q * (2 * p) + (x % 2 + 2 * r);
    DivUnique(x, 2 * p, q, x % 2 + 2 * r);
  }

  /** With all of n bits set, and keeps a value below 2^n and exclusive or complements it. */
  lemma {:induction false} AllOnes(x: nat, n: nat)
    requires x < Pow2(n)
    ensures And(Pow2(n) - 1, x) == x && And(x, Pow2(n) - 1) == x && Xor(x, Pow2(n) - 1) == Pow2(n) - 1 - x
  {
    if n == 0 {
      assert Pow2(0) == 1;
    } else {
      hide And, Xor;
      AllOnes(x / 2, n - 1);
      OnesStep(x, Pow2(n - 1) - 1);
      assert 2 * (Pow2(n - 1) - 1) + 1 == Pow2(n) - 1;
    }
  }

  lemma OnesStep(x: nat, m: nat)
    requires And(m, x / 2) == x / 2 && And(x / 2, m) == x / 2 && Xor(x / 2, m) == m - x / 2
    ensures And(2 * m + 1, x) == x && And(x, 2 * m + 1) == x && Xor(x, 2 * m + 1) == 2 * m + 1 - x
  {
    hide And, Xor, Or, Pow2;
    OddHalves(x, m);
    AndStep(2 * m + 1, x);
    AndStep(x, 2 * m + 1);
    XorStep(x, 2 * m + 1);
  }

  lemma OddHalves(x: nat, m: nat)
    ensures (2 * m + 1) % 2 == 1 && (2 * m + 1) / 2 == m && (x + (2 * m + 1)) % 2 == 1 - x % 2
    ensures x == 2 * (x / 2) + x % 2
  {
  }

  // Words of 64 bits.

  function XorWord(x: Word, y: Word): Word {
    Pow2Of64();
    XorBound(x, y, 64);
    Xor(x, y)
  }

  lemma AllOnes64(x: Word)
    ensures And(0xffff_ffff_ffff_ffff, x) == x
  {
    Pow2Of64();
    AllOnes(x, 64);
  }

  /** r ^ ((b - 1) & (r ^ t)): a borrow bit b chooses r, and no borrow t. */
  function ChooseByBorrow(b: Word, r: Word, t: Word): (w: Word)
    requires b <= 1
    ensures w == if b == 0 then t else r
  {
    hide Xor, And;
    AllOnes64(XorWord(r, t));
    XorZero(XorWord(r, t));
    XorZero(r);
    XorTwice(r, t);
    MaskOf(b);
    Xor(r, And(Wrap(b as int - 1), XorWord(r, t)))
  }

  /** x = swap & (a ^ b), for the mask swap = -flag; a ^ x is b when the flag is set. */
  function SwapMask(flag: Word, a: Word, b: Word): (x: Word)
    requires flag <= 1
    ensures Xor(a, x) == (if flag == 1 then b else a) && Xor(b, x) == (if flag == 1 then a else b)
  {
    hide Xor, And;
    var d := XorWord(a, b);
    AllOnes64(d);
    XorZero(d);
    XorZero(a);
    XorZero(b);
    XorTwice(a, b);
    MaskOf(flag);
    And(Wrap(-(flag as int)), d)
  }

  lemma MaskOf(flag: Word)
    requires flag <= 1
    ensures Wrap(-(flag as int)) == if flag == 1 then 0xffff_ffff_ffff_ffff else 0
    ensures Wrap(flag as int - 1) == if flag == 1 then 0 else 0xffff_ffff_ffff_ffff
  {
  }

  // Values of 32 bits.

  function Wrap32(x: int): (r: nat)
    ensures r < 0x1_0000_0000
  {
    x % 0x1_0000_0000
  }

  /** ((b ^ c) - 1) >> 31, for 32-bit words: equality of values below 2^31. */
  function EqualBit(b: nat, c: nat): (e: nat)
    requires b < 0x8000_0000 && c < 0x8000_0000
    ensures e == if b == c then 1 else 0
  {
    hide Xor;
    Pow2Of31();
    XorBound(b, c, 31);
    XorIsZero(b, c);
    Wrap32(Xor(b, c) as int - 1) / 0x8000_0000
  }

  lemma Pow2Of31()
    ensures Pow2(31) == 0x8000_0000
  {
    Pow2Of32();
    assert Pow2(32) == 2 * Pow2(31);
  }

  /** (b + mask) ^ mask, with mask = ~(sign - 1) in 32 bits: the absolute value of a signed char. */
  function AbsByMask(b: int, sign: nat): (u: nat)
    requires -128 <= b <= 127 && sign == if b < 0 then 1 else 0
    ensures u == if b < 0 then -b else b
  {
    hide Xor;
    var mask := 0xffff_ffff - Wrap32(sign as int - 1);
    var x := Wrap32(b + mask);
    AbsMask(b, sign);
    AllOnes32(x);
    XorZero(x);
    Xor(x, mask)
  }

  lemma AllOnes32(x: nat)
    requires x < 0x1_0000_0000
    ensures Xor(x, 0xffff_ffff) == 0xffff_ffff - x
  {
    Pow2Of32();
    AllOnes(x, 32);
  }

  lemma AbsMask(b: int, sign: nat)
    requires -128 <= b <= 127 && sign == if b < 0 then 1 else 0
    ensures Wrap32(sign as int - 1) == if b < 0 then 0 else 0xffff_ffff
    ensures b < 0 ==> Wrap32(b + 0xffff_ffff) == 0xffff_ffff + b
    ensures b >= 0 ==> Wrap32(b + 0) == b
  {
  }
}
