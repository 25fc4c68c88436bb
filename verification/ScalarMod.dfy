/**
 * Arithmetic modulo the group order m = 2^252 + 27742317777372353535851937790883648493 on five
 * 56-bit limbs, with Barrett reduction (Handbook of Applied Cryptography, algorithm 14.42).
 */
module ScalarMod {
  import opened Words
  import opened Bitwise
  import opened ScalarLimbs

  /** The group order. */
  const ORDER: nat := 0x1000_0000_0000_0000_0000_0000_0000_0000_14de_f9de_a2f7_9cd6_5812_631a_5cf5_d3ed

  const TWO_226: nat := 0x4_0000_0000_0000_0000_0000_0000_0000_0000_0000_0000_0000_0000_0000_0000

  /** v * mu, where mu = floor(2^512 / m) */
  function TimesMu(v: int): int { 0xf_ffff_ffff_ffff_ffff_ffff_ffff_ffff_ffeb_2106_215d_0863_29a7_ed9c_e5a3_0a2c_131b * v }

  /** v * 2^264 */
  function Times264(v: int): int { 0x100_0000_0000_0000_0000_0000_0000_0000_0000_0000_0000_0000_0000_0000_0000_0000_0000 * v }

  /** A column of a product: a 128-bit accumulator whose carry above bit 56 fits in a word. */
  type Column = x: nat | x < 0x100_0000_0000_0000_0000_0000_0000_0000

  /** A limb, or a limb-sized carry into the next column. */
  type Limb = x: nat | x < 0x100_0000_0000_0000

  /** 1 when a < b, for words less than 2^63 apart. */
  function Lt(a: Word, b: Word): Word { Sub(a, b) / 0x8000_0000_0000_0000 }

  /** One limb of a subtraction: pb is subtracted and a borrow of weight `unit` added back if needed. */
  method SubWithBorrow(x: Word, pb: Word, unit: Word) returns (t: Word, b: Word)
    requires x < 0x200_0000_0000_0000 && pb <= 0x100_0000_0000_0000 && unit <= 0x100_0000_0000_0000
    requires x < pb ==> pb <= unit + x
    ensures b <= 1 && (b == 1 <==> x < pb) && t == x - pb + b * unit
  {
    b := Lt(x, pb);
    t := Wrap(Sub(x, pb) + b * unit);
  }

  function Val5(r0: int, r1: int, r2: int, r3: int, r4: int): int {
    r0 + r1 * 0x100_0000_0000_0000
    + r2 * 0x1_0000_0000_0000_0000_0000_0000_0000
    + r3 * 0x100_0000_0000_0000_0000_0000_0000_0000_0000_0000_0000
    + r4 * 0x1_0000_0000_0000_0000_0000_0000_0000_0000_0000_0000_0000_0000_0000_0000
  }

  /** The value of five limbs, which need not be normalised. */
  function Val(r: seq<nat>): nat
    requires |r| == 5
  {
    Val5(r[0], r[1], r[2], r[3], r[4])
  }

  lemma ValIsValue(s: Scalar)
    ensures Val(s) == Value(s)
  {
  }

  /** Limbs 0..3 are normalised and the whole value is below 2^264. */
  ghost predicate Limbs264(r: seq<nat>) {
    |r| == 5 && (forall i :: 0 <= i < 4 ==> r[i] < TWO_56) && r[4] < 0x100_0000_0000
  }

  /** Subtract m once unless the value is below m already. */
  method Reduce(r: seq<Word>) returns (out: seq<Word>)
    requires Limbs264(r)
    ensures Limbs264(out)
    ensures Val(out) == if Val(r) < ORDER then Val(r) else Val(r) - ORDER
  {
    hide ChooseByBorrow, Val5;
    var t0, b0 := SubWithBorrow(r[0], 0x12631a5cf5d3ed, 0x100_0000_0000_0000);
    var t1, b1 := SubWithBorrow(r[1], b0 + 0xf9dea2f79cd658, 0x100_0000_0000_0000);
    var t2, b2 := SubWithBorrow(r[2], b1 + 0x000000000014de, 0x100_0000_0000_0000);
    var t3, b3 := SubWithBorrow(r[3], b2 + 0x00000000000000, 0x100_0000_0000_0000);
    var t4, b4 := SubWithBorrow(r[4], b3 + 0x00000010000000, 0x1_0000_0000);
    BorrowChain(r, t0, t1, t2, t3, t4, b0, b1, b2, b3, b4);
    out := [ChooseByBorrow(b4, r[0], t0), ChooseByBorrow(b4, r[1], t1), ChooseByBorrow(b4, r[2], t2),
            ChooseByBorrow(b4, r[3], t3), ChooseByBorrow(b4, r[4], t4)];
    assert out == if b4 == 0 then [t0, t1, t2, t3, t4] else r;
  }

  /** The limbs are those of r - m, plus 2^256 just when r is below m. */
  lemma BorrowChain(r: seq<nat>, t0: int, t1: int, t2: int, t3: int, t4: int, b0: int, b1: int, b2: int, b3: int, b4: int)
    requires Limbs264(r) && 0 <= b4 <= 1 && (b4 == 1 <==> r[4] < b3 + 0x10000000)
    requires 0 <= t0 < TWO_56 && 0 <= t1 < TWO_56 && 0 <= t2 < TWO_56 && 0 <= t3 < TWO_56 && t4 >= 0
    requires t0 == r[0] - 0x12631a5cf5d3ed + 0x100_0000_0000_0000 * b0
    requires t1 == r[1] - b0 - 0xf9dea2f79cd658 + 0x100_0000_0000_0000 * b1
    requires t2 == r[2] - b1 - 0x14de + 0x100_0000_0000_0000 * b2
    requires t3 == r[3] - b2 + 0x100_0000_0000_0000 * b3
    requires t4 == r[4] - b3 - 0x10000000 + 0x1_0000_0000 * b4
    ensures b4 == 1 <==> Val(r) < ORDER
    ensures b4 == 0 ==> Val5(t0, t1, t2, t3, t4) == Val(r) - ORDER
  {
    assert Val5(t0, t1, t2, t3, t4) == Val(r) - ORDER
      + 0x1_0000_0000_0000_0000_0000_0000_0000_0000_0000_0000_0000_0000_0000_0000_0000_0000 * b4;
  }

  /** shr128(f, c, 56) */
  function Carry(c: Column): (f: Word) { c / 0x100_0000_0000_0000 }

  /** (lo128(c) >> 40) & 0xffff */
  function Mid16(c: Column): nat { c % 0x1_0000_0000_0000_0000 / 0x100_0000_0000 % 0x1_0000 }

  /** (lo128(c) << 16) & 0xffffffffffffff */
  function Up16(c: Column): nat { c % 0x1_0000_0000_0000_0000 * 0x1_0000 % 0x1_0000_0000_0000_0000 % 0x100_0000_0000_0000 }

  /** A column is its 40 low bits, 16 middle bits that end a limb of q3, and its carry. */
  lemma Split40(c: Column) returns (low: nat)
    ensures c == 0x100_0000_0000_0000 * Carry(c) + 0x100_0000_0000 * Mid16(c) + low
    ensures low < 0x100_0000_0000 && Mid16(c) < 0x1_0000 && Up16(c) == 0x1_0000 * low
  {
    var y := c % 0x100_0000_0000_0000;
    var mid := y / 0x100_0000_0000;
    low := y % 0x100_0000_0000;
    var k := c / 0x1_0000_0000_0000_0000;
    var lo := c % 0x1_0000_0000_0000_0000;
    var h := Carry(c) - 0x100 * k;
    assert lo == 0x100_0000_0000_0000 * h + y;
    assert lo == 0x100_0000_0000 * (0x1_0000 * h + mid) + low;
    assert lo / 0x100_0000_0000 == 0x1_0000 * h + mid;
    Up16Low(lo, 0x1_0000 * h + mid, low);
  }

  lemma Up16Low(lo: nat, a: int, low: nat)
    requires lo == 0x100_0000_0000 * a + low && low < 0x100_0000_0000
    ensures lo * 0x1_0000 % 0x1_0000_0000_0000_0000 % 0x100_0000_0000_0000 == 0x1_0000 * low
  {
    var x := lo * 0x1_0000;
    var k := x / 0x1_0000_0000_0000_0000;
    assert x % 0x1_0000_0000_0000_0000 == 0x100_0000_0000_0000 * (a - 0x100 * k) + 0x1_0000 * low;
  }

  // The columns of mu * q1, in the order they are accumulated; f is the carry from the column below.

  function Mu3(x0: Limb, x1: Limb, x2: Limb, x3: Limb): Column {
    0x9ce5a30a2c131b * x3 + 0xffffffffffffff * x0 + 0x215d086329a7ed * x2 + 0xffffffffeb2106 * x1
  }

  function Mu4(x0: Limb, x1: Limb, x2: Limb, x3: Limb, x4: Limb, f: Word): Column {
    0x9ce5a30a2c131b * x4 + f + 0x00000fffffffff * x0 + 0xffffffffffffff * x1 + 0x215d086329a7ed * x3 + 0xffffffffeb2106 * x2
  }

  function Mu5(x1: Limb, x2: Limb, x3: Limb, x4: Limb, f: Word): Column {
    0x00000fffffffff * x1 + f + 0x215d086329a7ed * x4 + 0xffffffffeb2106 * x3 + 0xffffffffffffff * x2
  }

  function Mu6(x2: Limb, x3: Limb, x4: Limb, f: Word): Column {
    0x00000fffffffff * x2 + f + 0xffffffffeb2106 * x4 + 0xffffffffffffff * x3
  }

  function Mu7(x3: Limb, x4: Limb, f: Word): Column {
    0x00000fffffffff * x3 + f + 0xffffffffffffff * x4
  }

  function Mu8(x4: Limb, f: Word): Column {
    0x00000fffffffff * x4 + f
  }

  /**
   * The quotient estimate q3 = (mu * q1) >> 264 with the three lowest columns of the product
   * dropped: it never exceeds the exact quotient, and the dropped columns are below 2^226.
   */
  method EstimateQuotient(q1: seq<Limb>) returns (q3: seq<Limb>)
    requires Limbs264(q1)
    ensures Limbs264(q3)
    ensures Times264(Val(q3)) <= TimesMu(Val(q1)) < Times264(Val(q3) + 1) + TWO_226
  {
    hide Carry, Mid16, Up16, Mu3, Mu4, Mu5, Mu6, Mu7, Mu8, Val;
    var c3 := Mu3(q1[0], q1[1], q1[2], q1[3]);
    var c4 := Mu4(q1[0], q1[1], q1[2], q1[3], q1[4], Carry(c3));
    var m4 := Mid16(c4);
    var c5 := Mu5(q1[1], q1[2], q1[3], q1[4], Carry(c4));
    var q30 := m4 + Up16(c5);
    var m5 := Mid16(c5);
    var c6 := Mu6(q1[2], q1[3], q1[4], Carry(c5));
    var q31 := m5 + Up16(c6);
    var m6 := Mid16(c6);
    var c7 := Mu7(q1[3], q1[4], Carry(c6));
    var q32 := m6 + Up16(c7);
    var m7 := Mid16(c7);
    var c8 := Mu8(q1[4], Carry(c7));
    var q33 := m7 + Up16(c8);
    var m8 := Mid16(c8);
    QuotientLimbs(q1, c3, c4, c5, c6, c7, c8);
    q3 := [q30, q31, q32, q33, m8 + Carry(c8) * 0x1_0000];
  }

  lemma QuotientLimbs(x: seq<Limb>, c3: Column, c4: Column, c5: Column, c6: Column, c7: Column, c8: Column)
    requires Limbs264(x)
    requires c3 == Mu3(x[0], x[1], x[2], x[3])
    requires c4 == Mu4(x[0], x[1], x[2], x[3], x[4], Carry(c3))
    requires c5 == Mu5(x[1], x[2], x[3], x[4], Carry(c4))
    requires c6 == Mu6(x[2], x[3], x[4], Carry(c5))
    requires c7 == Mu7(x[3], x[4], Carry(c6))
    requires c8 == Mu8(x[4], Carry(c7))
    ensures var q3 := [Mid16(c4) + Up16(c5), Mid16(c5) + Up16(c6), Mid16(c6) + Up16(c7), Mid16(c7) + Up16(c8),
                       Mid16(c8) + Carry(c8) * 0x1_0000];
            && Limbs264(q3)
            && Times264(Val(q3)) <= TimesMu(Val(x)) < Times264(Val(q3) + 1) + TWO_226
  {
    hide Carry, Mid16, Up16, Mu3, Mu4, Mu5, Mu6, Mu7, Mu8;
    var rest, dropped := ColumnSum(x, c3, c4, c5, c6, c7, c8);
    var l4 := Split40(c4);
    var l5 := Split40(c5);
    var l6 := Split40(c6);
    var l7 := Split40(c7);
    var l8 := Split40(c8);
  }

  /** mu * x is q3 * 2^264, plus what q3 leaves of columns 3 and 4, plus columns 0..2. */
  lemma ColumnSum(x: seq<Limb>, c3: Column, c4: Column, c5: Column, c6: Column, c7: Column, c8: Column)
    returns (rest: nat, dropped: nat)
    requires Limbs264(x)
    requires c3 == Mu3(x[0], x[1], x[2], x[3])
    requires c4 == Mu4(x[0], x[1], x[2], x[3], x[4], Carry(c3))
    requires c5 == Mu5(x[1], x[2], x[3], x[4], Carry(c4))
    requires c6 == Mu6(x[2], x[3], x[4], Carry(c5))
    requires c7 == Mu7(x[3], x[4], Carry(c6))
    requires c8 == Mu8(x[4], Carry(c7))
    ensures TimesMu(Val5(x[0], x[1], x[2], x[3], x[4]))
         == Times264(Val5(Mid16(c4) + Up16(c5), Mid16(c5) + Up16(c6), Mid16(c6) + Up16(c7), Mid16(c7) + Up16(c8),
                          Mid16(c8) + Carry(c8) * 0x1_0000))
            + 0x100_0000_0000_0000_0000_0000_0000_0000_0000_0000_0000 * rest + dropped
    ensures rest < 0x1_0000_0000_0000_0000_0000_0000 && dropped < TWO_226 && Carry(c8) < 0x100_0000
  {
    hide Carry, Mid16, Up16, Val5, Dropped, TimesMu, Times264, Mu3, Mu4, Mu5, Mu6, Mu7, Mu8;
    TopCarry(x[4], Carry(c7));
    var l3 := Split40(c3);
    var l4 := Split40(c4);
    var l5 := Split40(c5);
    var l6 := Split40(c6);
    var l7 := Split40(c7);
    var l8 := Split40(c8);
    QuotientIdentity(x[0], x[1], x[2], x[3], x[4], Carry(c3), Carry(c4), Carry(c5), Carry(c6), Carry(c7), Carry(c8),
      Mid16(c3), Mid16(c4), Mid16(c5), Mid16(c6), Mid16(c7), Mid16(c8), l3, l4, l5, l6, l7, l8,
      Up16(c5), Up16(c6), Up16(c7), Up16(c8));
    rest := 0x100_0000_0000 * Mid16(c3) + l3 + 0x100_0000_0000_0000 * l4;
    dropped := Dropped(x[0], x[1], x[2]);
  }

  /** Columns 0..2 of mu * x. */
  function Dropped(x0: int, x1: int, x2: int): (d: int)
    ensures 0 <= x0 < TWO_56 && 0 <= x1 < TWO_56 && 0 <= x2 < TWO_56 ==> 0 <= d < TWO_226
  {
    0x9ce5a30a2c131b * x0
    + 0x100_0000_0000_0000 * (0x9ce5a30a2c131b * x1 + 0x215d086329a7ed * x0)
    + 0x1_0000_0000_0000_0000_0000_0000_0000 * (0x9ce5a30a2c131b * x2 + 0x215d086329a7ed * x1 + 0xffffffffeb2106 * x0)
  }

  /** Column by column, mu * x is q3 * 2^264, plus what q3 leaves of columns 3 and 4, plus columns 0..2. */
  lemma QuotientIdentity(x0: Limb, x1: Limb, x2: Limb, x3: Limb, x4: Limb,
                         f3: Word, f4: Word, f5: Word, f6: Word, f7: Word, f8: Word,
                         m3: int, m4: int, m5: int, m6: int, m7: int, m8: int,
                         l3: int, l4: int, l5: int, l6: int, l7: int, l8: int, u5: int, u6: int, u7: int, u8: int)
    requires u5 == 0x1_0000 * l5 && u6 == 0x1_0000 * l6 && u7 == 0x1_0000 * l7 && u8 == 0x1_0000 * l8
    requires Mu3(x0, x1, x2, x3) == 0x100_0000_0000_0000 * f3 + 0x100_0000_0000 * m3 + l3
    requires Mu4(x0, x1, x2, x3, x4, f3) == 0x100_0000_0000_0000 * f4 + 0x100_0000_0000 * m4 + l4
    requires Mu5(x1, x2, x3, x4, f4) == 0x100_0000_0000_0000 * f5 + 0x100_0000_0000 * m5 + l5
    requires Mu6(x2, x3, x4, f5) == 0x100_0000_0000_0000 * f6 + 0x100_0000_0000 * m6 + l6
    requires Mu7(x3, x4, f6) == 0x100_0000_0000_0000 * f7 + 0x100_0000_0000 * m7 + l7
    requires Mu8(x4, f7) == 0x100_0000_0000_0000 * f8 + 0x100_0000_0000 * m8 + l8
    ensures TimesMu(Val5(x0, x1, x2, x3, x4))
         == Times264(Val5(m4 + u5, m5 + u6, m6 + u7, m7 + u8, m8 + f8 * 0x1_0000))
            + 0x100_0000_0000_0000_0000_0000_0000_0000_0000_0000_0000 * (0x100_0000_0000 * m3 + l3 + 0x100_0000_0000_0000 * l4)
            + Dropped(x0, x1, x2)
  {
  }

  lemma TopCarry(x4: Limb, f: Word)
    requires x4 < 0x100_0000_0000
    ensures Carry(Mu8(x4, f)) < 0x100_0000
  {
  }

  // The columns of m * q3 below 2^280.

  function M0(q0: Limb): Column {
    0x12631a5cf5d3ed * q0
  }

  function M1(q0: Limb, q1: Limb, f: Word): Column {
    0x12631a5cf5d3ed * q1 + f + 0xf9dea2f79cd658 * q0
  }

  function M2(q0: Limb, q1: Limb, q2: Limb, f: Word): Column {
    0x12631a5cf5d3ed * q2 + f + 0x000000000014de * q0 + 0xf9dea2f79cd658 * q1
  }

  function M3(q0: Limb, q1: Limb, q2: Limb, q3: Limb, f: Word): Column {
    0x12631a5cf5d3ed * q3 + f + 0x00000000000000 * q0 + 0xf9dea2f79cd658 * q2 + 0x000000000014de * q1
  }

  function M4(q0: Limb, q1: Limb, q2: Limb, q3: Limb, q4: Limb, f: Word): Column {
    0x12631a5cf5d3ed * q4 + f + 0x00000010000000 * q0 + 0x00000000000000 * q1 + 0xf9dea2f79cd658 * q3 + 0x000000000014de * q2
  }

  /** lo128(c) & 0xffffffffffffff */
  function LowLimb(c: Column): Limb { c % 0x1_0000_0000_0000_0000 % 0x100_0000_0000_0000 }

  /** lo128(c) & 0x0000ffffffffff */
  function Low40(c: Column): Limb { c % 0x1_0000_0000_0000_0000 % 0x100_0000_0000 }

  lemma SplitLow(c: Column)
    ensures c == 0x100_0000_0000_0000 * Carry(c) + LowLimb(c)
  {
    var k := c / 0x1_0000_0000_0000_0000;
    assert c % 0x1_0000_0000_0000_0000 == 0x100_0000_0000_0000 * (Carry(c) - 0x100 * k) + c % 0x100_0000_0000_0000;
  }

  lemma SplitLow40(c: Column) returns (high: nat)
    ensures c == 0x100_0000_0000 * high + Low40(c) && Low40(c) < 0x100_0000_0000
  {
    var k := c / 0x1_0000_0000_0000_0000;
    high := c / 0x100_0000_0000;
    assert c % 0x1_0000_0000_0000_0000 == 0x100_0000_0000 * (high - 0x100_0000 * k) + c % 0x100_0000_0000;
  }

  /** v * m */
  function TimesOrder(v: int): int {
    0x1000_0000_0000_0000_0000_0000_0000_0000_14de_f9de_a2f7_9cd6_5812_631a_5cf5_d3ed * v
  }

  /** r2 = (m * q) mod 2^264 */
  method TimesOrderLow(q: seq<Limb>) returns (r2: seq<Limb>, ghost high: int)
    requires |q| == 5
    ensures Limbs264(r2) && TimesOrder(Val(q)) == Val(r2) + Times264(high)
  {
    hide Carry, LowLimb, Low40, M0, M1, M2, M3, M4, Val5, TimesOrder, Times264;
    var c0 := M0(q[0]);
    SplitLow(c0);
    var c1 := M1(q[0], q[1], Carry(c0));
    SplitLow(c1);
    var c2 := M2(q[0], q[1], q[2], Carry(c1));
    SplitLow(c2);
    var c3 := M3(q[0], q[1], q[2], q[3], Carry(c2));
    SplitLow(c3);
    var c4 := M4(q[0], q[1], q[2], q[3], q[4], Carry(c3));
    ghost var top := SplitLow40(c4);
    high := OrderIdentity(q[0], q[1], q[2], q[3], q[4], Carry(c0), Carry(c1), Carry(c2), Carry(c3),
      LowLimb(c0), LowLimb(c1), LowLimb(c2), LowLimb(c3), Low40(c4), top);
    r2 := [LowLimb(c0), LowLimb(c1), LowLimb(c2), LowLimb(c3), Low40(c4)];
  }

  lemma OrderIdentity(q0: Limb, q1: Limb, q2: Limb, q3: Limb, q4: Limb, f0: Word, f1: Word, f2: Word, f3: Word,
                      r0: int, r1: int, r2: int, r3: int, r4: int, top: int) returns (high: int)
    requires M0(q0) == 0x100_0000_0000_0000 * f0 + r0
    requires M1(q0, q1, f0) == 0x100_0000_0000_0000 * f1 + r1
    requires M2(q0, q1, q2, f1) == 0x100_0000_0000_0000 * f2 + r2
    requires M3(q0, q1, q2, q3, f2) == 0x100_0000_0000_0000 * f3 + r3
    requires M4(q0, q1, q2, q3, q4, f3) == 0x100_0000_0000 * top + r4
    ensures TimesOrder(Val5(q0, q1, q2, q3, q4)) == Val5(r0, r1, r2, r3, r4) + Times264(high)
  {
    var y1: int, y2: int, y3: int, y4: int := q1, q2, q3, q4;
    high := top + 0x1_0000 * ((0xf9dea2f79cd658 * y4 + 0x000000000014de * y3 + 0x00000010000000 * y1)
      + 0x100_0000_0000_0000 * (0x000000000014de * y4 + 0x00000010000000 * y2)
      + 0x1_0000_0000_0000_0000_0000_0000_0000 * (0x00000010000000 * y3)
      + 0x100_0000_0000_0000_0000_0000_0000_0000_0000_0000_0000 * (0x00000010000000 * y4));
  }

  /** x mod m */
  function ModOrder(x: nat): (r: nat)
    ensures r < ORDER
  {
    x % 0x1000_0000_0000_0000_0000_0000_0000_0000_14de_f9de_a2f7_9cd6_5812_631a_5cf5_d3ed
  }

  lemma ModOrderUnique(x: nat, k: int, r: nat)
    requires x == TimesOrder(k) + r && r < ORDER
    ensures ModOrder(x) == r
  {
    var e := x / 0x1000_0000_0000_0000_0000_0000_0000_0000_14de_f9de_a2f7_9cd6_5812_631a_5cf5_d3ed - k;
    assert x == 0x1000_0000_0000_0000_0000_0000_0000_0000_14de_f9de_a2f7_9cd6_5812_631a_5cf5_d3ed
              * (x / 0x1000_0000_0000_0000_0000_0000_0000_0000_14de_f9de_a2f7_9cd6_5812_631a_5cf5_d3ed) + ModOrder(x);
    assert 0x1000_0000_0000_0000_0000_0000_0000_0000_14de_f9de_a2f7_9cd6_5812_631a_5cf5_d3ed * e == r - ModOrder(x);
  }

  /** r1 - r2, modulo 2^264. */
  method SubtractMod264(r1: seq<Word>, r2: seq<Word>) returns (r: seq<Word>, ghost wrapped: int)
    requires Limbs264(r1) && Limbs264(r2)
    ensures Limbs264(r) && Val(r) == Val(r1) - Val(r2) + Times264(wrapped)
  {
    var t0, t1, t2, t3, t4, b;
    var pb: Word := 0;
    pb := pb + r2[0]; t0, b := SubWithBorrow(r1[0], pb, 0x100_0000_0000_0000); pb := b;
    pb := pb + r2[1]; t1, b := SubWithBorrow(r1[1], pb, 0x100_0000_0000_0000); pb := b;
    pb := pb + r2[2]; t2, b := SubWithBorrow(r1[2], pb, 0x100_0000_0000_0000); pb := b;
    pb := pb + r2[3]; t3, b := SubWithBorrow(r1[3], pb, 0x100_0000_0000_0000); pb := b;
    pb := pb + r2[4]; t4, b := SubWithBorrow(r1[4], pb, 0x100_0000_0000);
    r, wrapped := [t0, t1, t2, t3, t4], b;
  }

  /** The estimate is at most two below the exact quotient of x by m. */
  lemma EstimateWithinTwo(x: int, low: int, q1: int, q3: int)
    requires x == Times248(q1) + low && 0 <= low < Times248(1) && 0 <= q1 < Times264(1)
    requires Times264(q3) <= TimesMu(q1) < Times264(q3 + 1) + TWO_226
    ensures 0 <= x - TimesOrder(q3) < TimesOrder(3)
  {
  }

  /** v * 2^248 */
  function Times248(v: int): int { 0x100_0000_0000_0000_0000_0000_0000_0000_0000_0000_0000_0000_0000_0000_0000_0000 * v }

  /** Barrett reduction: from the high part q1 = x >> 248 and the low part r1 = x mod 2^264, exactly x mod m. */
  method Barrett(q1: seq<Limb>, r1: seq<Limb>, ghost x: nat) returns (r: seq<Word>)
    requires Limbs264(q1) && Limbs264(r1) && Val(q1) == Shr248(x) && Val(r1) == Mod264(x)
    ensures Limbs264(r) && Val(r) == ModOrder(x)
  {
    hide Val, TimesOrder, Times264, TimesMu, ModOrder, Times248;
    var q3 := EstimateQuotient(q1);
    var r2, high := TimesOrderLow(q3);
    ghost var wrapped;
    r, wrapped := SubtractMod264(r1, r2);
    Limbs264Bound(q1);
    Limbs264Bound(r);
    BarrettDifference(x, Val(q1), Val(r1), Val(q3), Val(r2), Val(r), high, wrapped);
    var once := Reduce(r);
    var twice := Reduce(once);
    TwoReductions(x, Val(q3), Val(r), Val(once), Val(twice));
    r := twice;
  }

  /** x >> 248 */
  function Shr248(x: nat): nat { x / 0x100_0000_0000_0000_0000_0000_0000_0000_0000_0000_0000_0000_0000_0000_0000_0000 }

  /** x mod 2^264 */
  function Mod264(x: nat): nat { x % 0x100_0000_0000_0000_0000_0000_0000_0000_0000_0000_0000_0000_0000_0000_0000_0000_0000 }

  lemma BarrettDifference(x: nat, q1: nat, r1: nat, q3: nat, r2: nat, r: nat, high: int, wrapped: int)
    requires q1 == Shr248(x) && r1 == Mod264(x) && q1 < Times264(1) && r < Times264(1)
    requires Times264(q3) <= TimesMu(q1) < Times264(q3 + 1) + TWO_226
    requires TimesOrder(q3) == r2 + Times264(high)
    requires r == r1 - r2 + Times264(wrapped)
    ensures r == x - TimesOrder(q3) && 0 <= r < TimesOrder(3)
  {
    var low, top := x - Times248(q1),
                    x / 0x100_0000_0000_0000_0000_0000_0000_0000_0000_0000_0000_0000_0000_0000_0000_0000_0000;
    EstimateWithinTwo(x, low, q1, q3);
    assert x == Times264(top) + r1;
    MultipleIsZero(r - (x - TimesOrder(q3)), wrapped + high - top);
  }

  lemma MultipleIsZero(d: int, k: int)
    requires d == Times264(k) && -Times264(1) < d < Times264(1)
    ensures d == 0
  {
  }

  lemma Limbs264Bound(r: seq<nat>)
    requires Limbs264(r)
    ensures Val(r) < Times264(1)
  {
  }

  /** Two conditional subtractions finish the job. */
  lemma TwoReductions(x: nat, q3: int, v0: nat, v1: nat, v2: nat)
    requires v0 == x - TimesOrder(q3) && v0 < TimesOrder(3)
    requires v1 == if v0 < ORDER then v0 else v0 - ORDER
    requires v2 == if v1 < ORDER then v1 else v1 - ORDER
    ensures v2 == ModOrder(x)
  {
    var k := (if v0 < ORDER then q3 else q3 + 1) + (if v1 < ORDER then 0 else 1);
    ModOrderUnique(x, k, v2);
  }

  /** mul64x64_128 */
  function Prod(a: int, b: int): int { a * b }

  lemma ProdBound(a: Limb, b: Limb)
    ensures 0 <= Prod(a, b) <= 0x1_0000_0000_0000_0000_0000_0000_0000
  {
    ProductLe(a, b, 0x100_0000_0000_0000, 0x100_0000_0000_0000);
  }

  lemma ProdCommutes(a: int, b: int)
    ensures Prod(a, b) == Prod(b, a)
  {
  }

  // The columns of x * y.

  function Col0(x: Scalar, y: Scalar): (c: Column)
    ensures c < 0x10_0000_0000_0000_0000_0000_0000_0000
  {
    ProdBound(x[0], y[0]);
    Prod(x[0], y[0])
  }

  function Col1(x: Scalar, y: Scalar): (c: Column)
    ensures c < 0x10_0000_0000_0000_0000_0000_0000_0000
  {
    ProdBound(x[0], y[1]); ProdBound(x[1], y[0]);
    Prod(x[0], y[1]) + Prod(x[1], y[0])
  }

  function Col2(x: Scalar, y: Scalar): (c: Column)
    ensures c < 0x10_0000_0000_0000_0000_0000_0000_0000
  {
    ProdBound(x[0], y[2]); ProdBound(x[2], y[0]); ProdBound(x[1], y[1]);
    Prod(x[0], y[2]) + Prod(x[2], y[0]) + Prod(x[1], y[1])
  }

  function Col3(x: Scalar, y: Scalar): (c: Column)
    ensures c < 0x10_0000_0000_0000_0000_0000_0000_0000
  {
    ProdBound(x[0], y[3]); ProdBound(x[3], y[0]); ProdBound(x[1], y[2]); ProdBound(x[2], y[1]);
    Prod(x[0], y[3]) + Prod(x[3], y[0]) + Prod(x[1], y[2]) + Prod(x[2], y[1])
  }

  function Col4(x: Scalar, y: Scalar): (c: Column)
    ensures c < 0x10_0000_0000_0000_0000_0000_0000_0000
  {
    ProdBound(x[0], y[4]); ProdBound(x[4], y[0]); ProdBound(x[3], y[1]); ProdBound(x[1], y[3]); ProdBound(x[2], y[2]);
    Prod(x[0], y[4]) + Prod(x[4], y[0]) + Prod(x[3], y[1]) + Prod(x[1], y[3]) + Prod(x[2], y[2])
  }

  function Col5(x: Scalar, y: Scalar): (c: Column)
    ensures c < 0x10_0000_0000_0000_0000_0000_0000_0000
  {
    ProdBound(x[4], y[1]); ProdBound(x[1], y[4]); ProdBound(x[2], y[3]); ProdBound(x[3], y[2]);
    Prod(x[4], y[1]) + Prod(x[1], y[4]) + Prod(x[2], y[3]) + Prod(x[3], y[2])
  }

  function Col6(x: Scalar, y: Scalar): (c: Column)
    ensures c < 0x10_0000_0000_0000_0000_0000_0000_0000
  {
    ProdBound(x[4], y[2]); ProdBound(x[2], y[4]); ProdBound(x[3], y[3]);
    Prod(x[4], y[2]) + Prod(x[2], y[4]) + Prod(x[3], y[3])
  }

  function Col7(x: Scalar, y: Scalar): (c: Column)
    ensures c < 0x10_0000_0000_0000_0000_0000_0000_0000
  {
    ProdBound(x[4], y[3]); ProdBound(x[3], y[4]);
    Prod(x[4], y[3]) + Prod(x[3], y[4])
  }

  function Col8(x: Scalar, y: Scalar): (c: Column)
    ensures c < 0x10_0000_0000_0000_0000_0000_0000_0000
  {
    ProdBound(x[4], y[4]);
    Prod(x[4], y[4])
  }

  lemma RowProduct(a: int, y0: int, y1: int, y2: int, y3: int, y4: int)
    ensures Prod(a, Val5(y0, y1, y2, y3, y4)) == Val5(Prod(a, y0), Prod(a, y1), Prod(a, y2), Prod(a, y3), Prod(a, y4))
  {
  }

  /** s0 + s1 * 2^56 + ... + s8 * 2^448 */
  function SumCols(s0: int, s1: int, s2: int, s3: int, s4: int, s5: int, s6: int, s7: int, s8: int): int {
    s0
    + 0x100_0000_0000_0000 * s1
    + 0x1_0000_0000_0000_0000_0000_0000_0000 * s2
    + 0x100_0000_0000_0000_0000_0000_0000_0000_0000_0000_0000 * s3
    + 0x1_0000_0000_0000_0000_0000_0000_0000_0000_0000_0000_0000_0000_0000_0000 * s4
    + 0x100_0000_0000_0000_0000_0000_0000_0000_0000_0000_0000_0000_0000_0000_0000_0000_0000_0000 * s5
    + 0x1_0000_0000_0000_0000_0000_0000_0000_0000_0000_0000_0000_0000_0000_0000_0000_0000_0000_0000_0000_0000_0000 * s6
    + 0x100_0000_0000_0000_0000_0000_0000_0000_0000_0000_0000_0000_0000_0000_0000_0000_0000_0000_0000_0000_0000_0000_0000_0000_0000 * s7
    + 0x1_0000_0000_0000_0000_0000_0000_0000_0000_0000_0000_0000_0000_0000_0000_0000_0000_0000_0000_0000_0000_0000_0000_0000_0000_0000_0000_0000_0000 * s8
  }

  /** x * y, column by column. */
  lemma ColumnsOfProduct(x: Scalar, y: Scalar)
    ensures Prod(Val(x), Val(y)) == SumCols(Col0(x, y), Col1(x, y), Col2(x, y), Col3(x, y), Col4(x, y),
                                            Col5(x, y), Col6(x, y), Col7(x, y), Col8(x, y))
  {
    hide Val5, Prod, SumCols;
    var v := Val(y);
    ProdCommutes(Val(x), v);
    RowProduct(v, x[0], x[1], x[2], x[3], x[4]);
    ProdCommutes(v, x[0]);
    RowProduct(x[0], y[0], y[1], y[2], y[3], y[4]);
    ProdCommutes(v, x[1]);
    RowProduct(x[1], y[0], y[1], y[2], y[3], y[4]);
    ProdCommutes(v, x[2]);
    RowProduct(x[2], y[0], y[1], y[2], y[3], y[4]);
    ProdCommutes(v, x[3]);
    RowProduct(x[3], y[0], y[1], y[2], y[3], y[4]);
    ProdCommutes(v, x[4]);
    RowProduct(x[4], y[0], y[1], y[2], y[3], y[4]);
    SumColumns(
      Prod(x[0], y[0]), Prod(x[0], y[1]), Prod(x[0], y[2]), Prod(x[0], y[3]), Prod(x[0], y[4]),
      Prod(x[1], y[0]), Prod(x[1], y[1]), Prod(x[1], y[2]), Prod(x[1], y[3]), Prod(x[1], y[4]),
      Prod(x[2], y[0]), Prod(x[2], y[1]), Prod(x[2], y[2]), Prod(x[2], y[3]), Prod(x[2], y[4]),
      Prod(x[3], y[0]), Prod(x[3], y[1]), Prod(x[3], y[2]), Prod(x[3], y[3]), Prod(x[3], y[4]),
      Prod(x[4], y[0]), Prod(x[4], y[1]), Prod(x[4], y[2]), Prod(x[4], y[3]), Prod(x[4], y[4]));
  }

  lemma SumColumns(p00: int, p01: int, p02: int, p03: int, p04: int,
                   p10: int, p11: int, p12: int, p13: int, p14: int,
                   p20: int, p21: int, p22: int, p23: int, p24: int,
                   p30: int, p31: int, p32: int, p33: int, p34: int,
                   p40: int, p41: int, p42: int, p43: int, p44: int)
    ensures Val5(Val5(p00, p01, p02, p03, p04), Val5(p10, p11, p12, p13, p14), Val5(p20, p21, p22, p23, p24),
                 Val5(p30, p31, p32, p33, p34), Val5(p40, p41, p42, p43, p44))
         == SumCols(p00, p01 + p10, p02 + p20 + p11,
                    p03 + p30 + p12 + p21, p04 + p40 + p31 + p13 + p22,
                    p41 + p14 + p23 + p32, p42 + p24 + p33, p43 + p34, p44)
  {
  }


  /** (lo128(c) >> 24) & 0xffffffff */
  function Mid32(c: Column): nat { c % 0x1_0000_0000_0000_0000 / 0x100_0000 % 0x1_0000_0000 }

  /** (lo128(c) << 32) & 0xffffffffffffff */
  function Up32(c: Column): nat { c % 0x1_0000_0000_0000_0000 * 0x1_0000_0000 % 0x1_0000_0000_0000_0000 % 0x100_0000_0000_0000 }

  /** A column is its 24 low bits, 32 middle bits that end a limb of q1, and its carry. */
  lemma Split24(c: Column) returns (low: nat)
    ensures c == 0x100_0000_0000_0000 * Carry(c) + 0x100_0000 * Mid32(c) + low
    ensures low < 0x100_0000 && Mid32(c) < 0x1_0000_0000 && Up32(c) == 0x1_0000_0000 * low
  {
    var y := c % 0x100_0000_0000_0000;
    var mid := y / 0x100_0000;
    low := y % 0x100_0000;
    var k := c / 0x1_0000_0000_0000_0000;
    var lo := c % 0x1_0000_0000_0000_0000;
    var h := Carry(c) - 0x100 * k;
    assert lo == 0x100_0000_0000_0000 * h + y;
    assert lo == 0x100_0000 * (0x1_0000_0000 * h + mid) + low;
    assert lo / 0x100_0000 == 0x1_0000_0000 * h + mid;
    Up32Low(lo, 0x1_0000_0000 * h + mid, low);
  }

  lemma Up32Low(lo: nat, a: int, low: nat)
    requires lo == 0x100_0000 * a + low && low < 0x100_0000
    ensures lo * 0x1_0000_0000 % 0x1_0000_0000_0000_0000 % 0x100_0000_0000_0000 == 0x1_0000_0000 * low
  {
    var x := lo * 0x1_0000_0000;
    var k := x / 0x1_0000_0000_0000_0000;
    assert x % 0x1_0000_0000_0000_0000 == 0x100_0000_0000_0000 * (a - 0x100 * k) + 0x1_0000_0000 * low;
  }

  /** The carry chain cuts the product at bit 248 (q1) and at bit 264 (r1). */
  lemma MulIdentity(s0: int, s1: int, s2: int, s3: int, s4: int, s5: int, s6: int, s7: int, s8: int,
                    f0: int, f1: int, f2: int, f3: int, f4: int, f5: int, f6: int, f7: int, f8: int,
                    r0: int, r1: int, r2: int, r3: int, r4: int, top: int,
                    h4: int, h5: int, h6: int, h7: int, h8: int, l4: int, l5: int, l6: int, l7: int, l8: int,
                    u5: int, u6: int, u7: int, u8: int) returns (high: int)
    requires u5 == 0x1_0000_0000 * l5 && u6 == 0x1_0000_0000 * l6 && u7 == 0x1_0000_0000 * l7 && u8 == 0x1_0000_0000 * l8
    requires s0 == 0x100_0000_0000_0000 * f0 + r0
    requires s1 + f0 == 0x100_0000_0000_0000 * f1 + r1
    requires s2 + f1 == 0x100_0000_0000_0000 * f2 + r2
    requires s3 + f2 == 0x100_0000_0000_0000 * f3 + r3
    requires s4 + f3 == 0x100_0000_0000_0000 * f4 + 0x100_0000 * h4 + l4
    requires s5 + f4 == 0x100_0000_0000_0000 * f5 + 0x100_0000 * h5 + l5
    requires s6 + f5 == 0x100_0000_0000_0000 * f6 + 0x100_0000 * h6 + l6
    requires s7 + f6 == 0x100_0000_0000_0000 * f7 + 0x100_0000 * h7 + l7
    requires s8 + f7 == 0x100_0000_0000_0000 * f8 + 0x100_0000 * h8 + l8
    requires s4 + f3 == 0x100_0000_0000 * top + r4
    ensures SumCols(s0, s1, s2, s3, s4, s5, s6, s7, s8)
         == Times248(Val5(h4 + u5, h5 + u6, h6 + u7, h7 + u8, h8 + f8 * 0x1_0000_0000)) + Val5(r0, r1, r2, r3, l4)
    ensures SumCols(s0, s1, s2, s3, s4, s5, s6, s7, s8) == Val5(r0, r1, r2, r3, r4) + Times264(high)
  {
    high := top + 0x1_0000 * (s5 + 0x100_0000_0000_0000 * s6 + 0x1_0000_0000_0000_0000_0000_0000_0000 * s7
                            + 0x100_0000_0000_0000_0000_0000_0000_0000_0000_0000_0000 * s8);
  }

  /** r = x * y mod m, for x, y < 2^256. */
  method MulMod(x: Scalar, y: Scalar) returns (r: seq<Word>)
    requires x[4] < 0x1_0000_0000 && y[4] < 0x1_0000_0000
    ensures Limbs264(r) && Val(r) == ModOrder(Val(x) * Val(y))
  {
    hide Carry, LowLimb, Low40, Mid32, Up32, Val5, Prod, Times248, Times264, SumCols, ModOrder, Shr248, Mod264,
         Col0, Col1, Col2, Col3, Col4, Col5, Col6, Col7, Col8;
    var c0: Column := Col0(x, y);
    var c1: Column := Col1(x, y) + Carry(c0);
    var c2: Column := Col2(x, y) + Carry(c1);
    var c3: Column := Col3(x, y) + Carry(c2);
    var c4: Column := Col4(x, y) + Carry(c3);
    var c5: Column := Col5(x, y) + Carry(c4);
    var c6: Column := Col6(x, y) + Carry(c5);
    var c7: Column := Col7(x, y) + Carry(c6);
    var c8: Column := Col8(x, y) + Carry(c7);
    var r1 := [LowLimb(c0), LowLimb(c1), LowLimb(c2), LowLimb(c3), Low40(c4)];
    var q1 := [Mid32(c4) + Up32(c5), Mid32(c5) + Up32(c6), Mid32(c6) + Up32(c7), Mid32(c7) + Up32(c8),
               Mid32(c8) + Carry(c8) * 0x1_0000_0000];
    MulSplit(x, y, c0, c1, c2, c3, c4, c5, c6, c7, c8);
    ProdIsProduct(Val(x), Val(y));
    r := Barrett(q1, r1, Prod(Val(x), Val(y)));
  }

  lemma MulSplit(x: Scalar, y: Scalar, c0: Column, c1: Column, c2: Column, c3: Column, c4: Column,
                 c5: Column, c6: Column, c7: Column, c8: Column)
    requires x[4] < 0x1_0000_0000 && y[4] < 0x1_0000_0000
    requires c0 == Col0(x, y)
    requires c1 == Col1(x, y) + Carry(c0)
    requires c2 == Col2(x, y) + Carry(c1)
    requires c3 == Col3(x, y) + Carry(c2)
    requires c4 == Col4(x, y) + Carry(c3)
    requires c5 == Col5(x, y) + Carry(c4)
    requires c6 == Col6(x, y) + Carry(c5)
    requires c7 == Col7(x, y) + Carry(c6)
    requires c8 == Col8(x, y) + Carry(c7)
    ensures Prod(Val(x), Val(y)) >= 0
    ensures Limbs264([LowLimb(c0), LowLimb(c1), LowLimb(c2), LowLimb(c3), Low40(c4)])
    ensures Mod264(Prod(Val(x), Val(y))) == Val5(LowLimb(c0), LowLimb(c1), LowLimb(c2), LowLimb(c3), Low40(c4))
    ensures Limbs264([Mid32(c4) + Up32(c5), Mid32(c5) + Up32(c6), Mid32(c6) + Up32(c7), Mid32(c7) + Up32(c8),
                      Mid32(c8) + Carry(c8) * 0x1_0000_0000])
    ensures Shr248(Prod(Val(x), Val(y)))
         == Val5(Mid32(c4) + Up32(c5), Mid32(c5) + Up32(c6), Mid32(c6) + Up32(c7), Mid32(c7) + Up32(c8),
                 Mid32(c8) + Carry(c8) * 0x1_0000_0000)
  {
    hide Carry, LowLimb, Low40, Mid32, Up32, Val5, Prod, Times248, Times264, SumCols, Shr248, Mod264,
         Col0, Col1, Col2, Col3, Col4, Col5, Col6, Col7, Col8;
    ColumnsOfProduct(x, y);
    SplitLow(c0);
    SplitLow(c1);
    SplitLow(c2);
    SplitLow(c3);
    var l4 := Split24(c4);
    var l5 := Split24(c5);
    var l6 := Split24(c6);
    var l7 := Split24(c7);
    var l8 := Split24(c8);
    var top := SplitLow40(c4);
    var high := MulIdentity(Col0(x, y), Col1(x, y), Col2(x, y), Col3(x, y), Col4(x, y), Col5(x, y), Col6(x, y),
                            Col7(x, y), Col8(x, y),
      Carry(c0), Carry(c1), Carry(c2), Carry(c3), Carry(c4), Carry(c5), Carry(c6), Carry(c7), Carry(c8),
      LowLimb(c0), LowLimb(c1), LowLimb(c2), LowLimb(c3), Low40(c4), top,
      Mid32(c4), Mid32(c5), Mid32(c6), Mid32(c7), Mid32(c8), l4, l5, l6, l7, l8, Up32(c5), Up32(c6), Up32(c7), Up32(c8));
    ProductBelow512(x, y);
    SplitUnique(Prod(Val(x), Val(y)),
      Mid32(c4) + Up32(c5), Mid32(c5) + Up32(c6), Mid32(c6) + Up32(c7), Mid32(c7) + Up32(c8),
      Mid32(c8) + Carry(c8) * 0x1_0000_0000,
      LowLimb(c0), LowLimb(c1), LowLimb(c2), LowLimb(c3), Low40(c4), l4, high);
  }

  lemma ProductBelow512(x: Scalar, y: Scalar)
    requires x[4] < 0x1_0000_0000 && y[4] < 0x1_0000_0000
    ensures 0 <= Prod(Val(x), Val(y)) < Times248(Times264(1))
  {
    ProductLe(Val(x), Val(y), 0x1_0000_0000_0000_0000_0000_0000_0000_0000_0000_0000_0000_0000_0000_0000_0000_0000 - 1,
              0x1_0000_0000_0000_0000_0000_0000_0000_0000_0000_0000_0000_0000_0000_0000_0000_0000 - 1);
  }

  /** The two cuts determine the shift and the residue. */
  lemma SplitUnique(x: int, q0: nat, q1: nat, q2: nat, q3: nat, q4: nat, r0: nat, r1: nat, r2: nat, r3: nat, r4: nat,
                    l4: nat, high: int)
    requires 0 <= x < Times248(Times264(1))
    requires r0 < TWO_56 && r1 < TWO_56 && r2 < TWO_56 && r3 < TWO_56 && r4 < 0x100_0000_0000 && l4 < 0x100_0000
    requires x == Times248(Val5(q0, q1, q2, q3, q4)) + Val5(r0, r1, r2, r3, l4)
    requires x == Val5(r0, r1, r2, r3, r4) + Times264(high)
    ensures Shr248(x) == Val5(q0, q1, q2, q3, q4) && Mod264(x) == Val5(r0, r1, r2, r3, r4) && q4 < 0x100_0000_0000
  {
    hide Shr248, Mod264, Val5, Times248, Times264;
    Val5Bounds(r0, r1, r2, r3, r4);
    Val5Bounds(r0, r1, r2, r3, l4);
    Shr248Unique(x, Val5(q0, q1, q2, q3, q4), Val5(r0, r1, r2, r3, l4));
    Mod264Unique(x, high, Val5(r0, r1, r2, r3, r4));
    TopLimbBound(x, q0, q1, q2, q3, q4, Val5(r0, r1, r2, r3, l4));
  }

  lemma Val5Bounds(r0: nat, r1: nat, r2: nat, r3: nat, r4: nat)
    requires r0 < TWO_56 && r1 < TWO_56 && r2 < TWO_56 && r3 < TWO_56 && r4 < 0x100_0000_0000
    ensures 0 <= Val5(r0, r1, r2, r3, r4) < Times264(1)
    ensures r4 < 0x100_0000 ==> Val5(r0, r1, r2, r3, r4) < Times248(1)
  {
  }

  lemma Shr248Unique(x: nat, q: int, low: int)
    requires x == Times248(q) + low && 0 <= low < Times248(1)
    ensures Shr248(x) == q
  {
  }

  lemma Mod264Unique(x: nat, high: int, r: int)
    requires x == r + Times264(high) && 0 <= r < Times264(1)
    ensures Mod264(x) == r
  {
  }

  lemma TopLimbBound(x: int, q0: nat, q1: nat, q2: nat, q3: nat, q4: nat, low: nat)
    requires x < Times248(Times264(1)) && x == Times248(Val5(q0, q1, q2, q3, q4)) + low
    ensures q4 < 0x100_0000_0000
  {
  }

  lemma ProdIsProduct(a: int, b: int)
    ensures Prod(a, b) == a * b
  {
  }
}
