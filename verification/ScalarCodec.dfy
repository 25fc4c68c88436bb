/** Addition modulo the group order, and the conversions between byte strings and scalars. */
module ScalarCodec {
  import opened Words
  import opened Bytes
  import opened ScalarLimbs
  import opened ScalarMod

  /** r = x + y mod m, for reduced x and y. */
  method AddMod(x: Scalar, y: Scalar) returns (r: seq<Word>)
    requires Val(x) < ORDER && Val(y) < ORDER
    ensures Limbs264(r) && Val(r) == ModOrder(Val(x) + Val(y))
  {
    hide ModOrder, Val5;
    TopLimb(x);
    TopLimb(y);
    var c: Word := x[0] + y[0]; var r0 := c % 0x100_0000_0000_0000; var c0 := c / 0x100_0000_0000_0000;
    c := c0 + x[1] + y[1]; var r1 := c % 0x100_0000_0000_0000; var c1 := c / 0x100_0000_0000_0000;
    c := c1 + x[2] + y[2]; var r2 := c % 0x100_0000_0000_0000; var c2 := c / 0x100_0000_0000_0000;
    c := c2 + x[3] + y[3]; var r3 := c % 0x100_0000_0000_0000; var c3 := c / 0x100_0000_0000_0000;
    c := c3 + x[4] + y[4];
    SumIdentity(x, y, r0, r1, r2, r3, c, c0, c1, c2, c3);
    var sum := [r0, r1, r2, r3, c];
    SumLimbs(sum);
    r := Reduce(sum);
    OneReduction(Val(x) + Val(y), Val(r));
  }

  lemma TopLimb(x: Scalar)
    requires Val(x) < ORDER
    ensures x[4] < 0x2000_0000
  {
  }

  lemma SumLimbs(r: seq<nat>)
    requires |r| == 5 && r[0] < TWO_56 && r[1] < TWO_56 && r[2] < TWO_56 && r[3] < TWO_56 && r[4] < 0x100_0000_0000
    ensures Limbs264(r)
  {
  }

  lemma SumIdentity(x: Scalar, y: Scalar, r0: int, r1: int, r2: int, r3: int, r4: int, c0: int, c1: int, c2: int, c3: int)
    requires x[0] + y[0] == 0x100_0000_0000_0000 * c0 + r0 && c0 + x[1] + y[1] == 0x100_0000_0000_0000 * c1 + r1
    requires c1 + x[2] + y[2] == 0x100_0000_0000_0000 * c2 + r2 && c2 + x[3] + y[3] == 0x100_0000_0000_0000 * c3 + r3
    requires r4 == c3 + x[4] + y[4]
    ensures Val5(r0, r1, r2, r3, r4) == Val(x) + Val(y)
  {
  }

  lemma OneReduction(x: nat, v: nat)
    requires x < TimesOrder(2) && v == if x < ORDER then x else x - ORDER
    ensures v == ModOrder(x)
  {
    ModOrderUnique(x, if x < ORDER then 0 else 1, v);
  }

  // ((lo >> s) | (hi << (64 - s))) & 0xffffffffffffff, for the four shifts in use: the shifted
  // parts do not overlap, so the disjunction is their sum.

  lemma MaskedSum(a: nat, y: nat, t: nat, v: nat)
    requires y == 0x100_0000_0000_0000 * t + v && a + v < 0x100_0000_0000_0000
    ensures (a + y % 0x1_0000_0000_0000_0000) % 0x100_0000_0000_0000 == a + v
  {
    var k := y / 0x1_0000_0000_0000_0000;
    assert a + y % 0x1_0000_0000_0000_0000 == 0x100_0000_0000_0000 * (t - 0x100 * k) + a + v;
  }

  function Join56(lo: Word, hi: Word): (r: Limb)
    ensures r == lo / 0x100_0000_0000_0000 + 0x100 * (hi % 0x1_0000_0000_0000)
  {
    MaskedSum(lo / 0x100_0000_0000_0000, hi * 0x100, hi / 0x1_0000_0000_0000, 0x100 * (hi % 0x1_0000_0000_0000));
    (lo / 0x100_0000_0000_0000 + hi * 0x100 % 0x1_0000_0000_0000_0000) % 0x100_0000_0000_0000
  }

  function Join48(lo: Word, hi: Word): (r: Limb)
    ensures r == lo / 0x1_0000_0000_0000 + 0x1_0000 * (hi % 0x100_0000_0000)
  {
    MaskedSum(lo / 0x1_0000_0000_0000, hi * 0x1_0000, hi / 0x100_0000_0000, 0x1_0000 * (hi % 0x100_0000_0000));
    (lo / 0x1_0000_0000_0000 + hi * 0x1_0000 % 0x1_0000_0000_0000_0000) % 0x100_0000_0000_0000
  }

  function Join40(lo: Word, hi: Word): (r: Limb)
    ensures r == lo / 0x100_0000_0000 + 0x100_0000 * (hi % 0x1_0000_0000)
  {
    MaskedSum(lo / 0x100_0000_0000, hi * 0x100_0000, hi / 0x1_0000_0000, 0x100_0000 * (hi % 0x1_0000_0000));
    (lo / 0x100_0000_0000 + hi * 0x100_0000 % 0x1_0000_0000_0000_0000) % 0x100_0000_0000_0000
  }

  function Join32(lo: Word, hi: Word): (r: Limb)
    ensures r == lo / 0x1_0000_0000 + 0x1_0000_0000 * (hi % 0x100_0000)
  {
    MaskedSum(lo / 0x1_0000_0000, hi * 0x1_0000_0000, hi / 0x100_0000, 0x1_0000_0000 * (hi % 0x100_0000));
    (lo / 0x1_0000_0000 + hi * 0x1_0000_0000 % 0x1_0000_0000_0000_0000) % 0x100_0000_0000_0000
  }

  /** The top limb of r1, masked to 40 bits. */
  function Join32Low40(lo: Word, hi: Word): (r: Limb)
    ensures r == lo / 0x1_0000_0000 + 0x1_0000_0000 * (hi % 0x100) && r < 0x100_0000_0000
  {
    var y, v := hi * 0x1_0000_0000, 0x1_0000_0000 * (hi % 0x100);
    assert y == 0x100_0000_0000 * (hi / 0x100) + v;
    assert lo / 0x1_0000_0000 + y % 0x1_0000_0000_0000_0000
        == 0x100_0000_0000 * (hi / 0x100 - 0x100_0000 * (y / 0x1_0000_0000_0000_0000)) + lo / 0x1_0000_0000 + v;
    (lo / 0x1_0000_0000 + y % 0x1_0000_0000_0000_0000) % 0x100_0000_0000
  }

  /** The value of eight words. */
  function Words8(x0: int, x1: int, x2: int, x3: int, x4: int, x5: int, x6: int, x7: int): int {
    x0 + 0x1_0000_0000_0000_0000 * (x1 + 0x1_0000_0000_0000_0000 * (x2 + 0x1_0000_0000_0000_0000 * (x3
    + 0x1_0000_0000_0000_0000 * (x4 + 0x1_0000_0000_0000_0000 * (x5 + 0x1_0000_0000_0000_0000 * (x6
    + 0x1_0000_0000_0000_0000 * x7))))))
  }

  /** The upper half of 64 bytes. */
  lemma UpperWords(b: seq<Byte>)
    requires |b| == 64
    ensures Words4(WordAt(b, 32), WordAt(b, 40), WordAt(b, 48), WordAt(b, 56)) == LeValue(b[32..])
  {
    hide WordAt, LeValue;
    assert b[64..] == [];
    LeValueNil();
    WordStep(b, 32);
    WordStep(b, 40);
    WordStep(b, 48);
    WordStep(b, 56);
  }

  lemma Words8Value(b: seq<Byte>)
    requires |b| == 64
    ensures Words8(WordAt(b, 0), WordAt(b, 8), WordAt(b, 16), WordAt(b, 24),
                   WordAt(b, 32), WordAt(b, 40), WordAt(b, 48), WordAt(b, 56)) == LeValue(b)
  {
    hide WordAt, LeValue;
    assert b[0..] == b;
    WordStep(b, 0);
    WordStep(b, 8);
    WordStep(b, 16);
    WordStep(b, 24);
    UpperWords(b);
  }

  /** The five low limbs are the residue modulo 2^264. */
  lemma LowLimbs(x0: Word, x1: Word, x2: Word, x3: Word, x4: Word, x5: Word, x6: Word, x7: Word)
    ensures var v := Words8(x0, x1, x2, x3, x4, x5, x6, x7);
            v >= 0 && Mod264(v) == Val5(x0 % 0x100_0000_0000_0000, Join56(x0, x1), Join48(x1, x2), Join40(x2, x3),
                                        Join32Low40(x3, x4))
  {
    hide Join56, Join48, Join40, Join32Low40, Mod264;
    var high := x4 / 0x100 + 0x100_0000_0000_0000 * (x5 as int
                                                     + 0x1_0000_0000_0000_0000 * (x6 as int + 0x1_0000_0000_0000_0000 * x7));
    Mod264Unique(Words8(x0, x1, x2, x3, x4, x5, x6, x7), high,
      Val5(x0 % 0x100_0000_0000_0000, Join56(x0, x1), Join48(x1, x2), Join40(x2, x3), Join32Low40(x3, x4)));
  }

  /** The five high limbs are the value without its 248 low bits. */
  lemma HighLimbs(x0: Word, x1: Word, x2: Word, x3: Word, x4: Word, x5: Word, x6: Word, x7: Word)
    ensures var v := Words8(x0, x1, x2, x3, x4, x5, x6, x7);
            v >= 0 && Shr248(v) == Val5(Join56(x3, x4), Join48(x4, x5), Join40(x5, x6), Join32(x6, x7), x7 / 0x100_0000)
  {
    hide Join56, Join48, Join40, Join32, Shr248;
    var low := x0 as int + 0x1_0000_0000_0000_0000 * (x1 as int + 0x1_0000_0000_0000_0000 * (x2 as int
               + 0x1_0000_0000_0000_0000 * (x3 as int % 0x100_0000_0000_0000)));
    Shr248Unique(Words8(x0, x1, x2, x3, x4, x5, x6, x7),
      Val5(Join56(x3, x4), Join48(x4, x5), Join40(x5, x6), Join32(x6, x7), x7 / 0x100_0000), low);
  }

  lemma Pow2Of248()
    ensures Pow2(248) == 0x100_0000_0000_0000_0000_0000_0000_0000_0000_0000_0000_0000_0000_0000_0000_0000
  {
    hide Pow2;
    Pow2Of56();
    Pow2Of24();
    Pow2Sum(56, 56);
    Pow2Sum(112, 112);
    Pow2Sum(224, 24);
  }

  /** A string of fewer than 32 bytes is below m, so its limbs are already reduced. */
  lemma ShortIsReduced(input: seq<Byte>)
    requires |input| < 32
    ensures LeValue(input) < ORDER && Mod264(LeValue(input)) == LeValue(input) == ModOrder(LeValue(input))
  {
    hide LeValue, Pow2, ModOrder;
    LeValueBound(input);
    Pow2Monotone(8 * |input|, 248);
    Pow2Of248();
    ModOrderUnique(LeValue(input), 0, LeValue(input));
  }

  /** The scalar of a byte string of any length up to 64: its little-endian value mod m. */
  method Expand(input: seq<Byte>) returns (out: seq<Word>)
    requires |input| <= 64
    ensures Limbs264(out) && Val(out) == ModOrder(LeValue(input))
  {
    hide WordAt, LeValue, Words8, Join56, Join48, Join40, Join32, Join32Low40, Mod264, Shr248, ModOrder, Val5;
    var work := input + Zeros(64 - |input|);
    LeValuePadded(input, 64 - |input|);
    var x0, x1, x2, x3 := WordAt(work, 0), WordAt(work, 8), WordAt(work, 16), WordAt(work, 24);
    var x4, x5, x6, x7 := WordAt(work, 32), WordAt(work, 40), WordAt(work, 48), WordAt(work, 56);
    Words8Value(work);
    LowLimbs(x0, x1, x2, x3, x4, x5, x6, x7);
    out := [x0 % 0x100_0000_0000_0000, Join56(x0, x1), Join48(x1, x2), Join40(x2, x3), Join32Low40(x3, x4)];
    if |input| < 32 {
      ShortIsReduced(input);
      return;
    }
    HighLimbs(x0, x1, x2, x3, x4, x5, x6, x7);
    var q1 := [Join56(x3, x4), Join48(x4, x5), Join40(x5, x6), Join32(x6, x7), x7 / 0x100_0000];
    out := Barrett(q1, out, LeValue(input));
  }

  // The words of contract256_modm: ((in[n] >> 8n) | (in[n+1] << (56 - 8n))).

  function Pack0(t: Limb, u: Limb): (f: Word)
    ensures f == t + 0x100_0000_0000_0000 * (u % 0x100)
  {
    LowWord(u * 0x100_0000_0000_0000, u / 0x100, 0x100_0000_0000_0000 * (u % 0x100));
    t + u * 0x100_0000_0000_0000 % 0x1_0000_0000_0000_0000
  }

  function Pack1(t: Limb, u: Limb): (f: Word)
    ensures f == t / 0x100 + 0x1_0000_0000_0000 * (u % 0x1_0000)
  {
    LowWord(u * 0x1_0000_0000_0000, u / 0x1_0000, 0x1_0000_0000_0000 * (u % 0x1_0000));
    t / 0x100 + u * 0x1_0000_0000_0000 % 0x1_0000_0000_0000_0000
  }

  function Pack2(t: Limb, u: Limb): (f: Word)
    ensures f == t / 0x1_0000 + 0x100_0000_0000 * (u % 0x100_0000)
  {
    LowWord(u * 0x100_0000_0000, u / 0x100_0000, 0x100_0000_0000 * (u % 0x100_0000));
    t / 0x1_0000 + u * 0x100_0000_0000 % 0x1_0000_0000_0000_0000
  }

  function Pack3(t: Limb, u: Limb): (f: Word)
    ensures f == t / 0x100_0000 + 0x1_0000_0000 * (u % 0x1_0000_0000)
  {
    LowWord(u * 0x1_0000_0000, u / 0x1_0000_0000, 0x1_0000_0000 * (u % 0x1_0000_0000));
    t / 0x100_0000 + u * 0x1_0000_0000 % 0x1_0000_0000_0000_0000
  }

  lemma PackedValue(x0: Limb, x1: Limb, x2: Limb, x3: Limb, x4: Limb)
    requires x4 < 0x1_0000_0000
    ensures Words4(Pack0(x0, x1), Pack1(x1, x2), Pack2(x2, x3), Pack3(x3, x4)) == Val5(x0, x1, x2, x3, x4)
  {
    hide Pack0, Pack1, Pack2, Pack3;
  }

  /** contract256_modm: the 32 bytes of a scalar below 2^256. */
  method Contract(x: Scalar) returns (out: seq<Byte>)
    requires x[4] < 0x1_0000_0000
    ensures |out| == 32 && LeValue(out) == Val(x)
  {
    hide LeValue, ToBytes, Pack0, Pack1, Pack2, Pack3, Val5;
    var f0, f1, f2, f3 := Pack0(x[0], x[1]), Pack1(x[1], x[2]), Pack2(x[2], x[3]), Pack3(x[3], x[4]);
    PackedValue(x[0], x[1], x[2], x[3], x[4]);
    BytesOfWords(f0, f1, f2, f3);
    out := ToBytes(f0, 8) + ToBytes(f1, 8) + ToBytes(f2, 8) + ToBytes(f3, 8);
  }

  /** A reduced scalar is normalised, with a top limb of 29 bits. */
  lemma ReducedIsScalar(r: seq<nat>)
    requires Limbs264(r) && Val(r) < ORDER
    ensures r[4] < 0x2000_0000 && forall i :: 0 <= i < 5 ==> r[i] < TWO_56
  {
  }
}
