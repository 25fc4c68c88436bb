/** Arithmetic modulo 2^255 - 19 on five 51-bit limbs. */
module Field {
  import opened Words

  const TWO_54: nat := 0x40_0000_0000_0000

  /** A bignum25519: five words. */
  datatype Fe = Fe(a0: Word, a1: Word, a2: Word, a3: Word, a4: Word)

  function Val51(a0: int, a1: int, a2: int, a3: int, a4: int): int {
    a0 + 0x8_0000_0000_0000 * a1 + 0x40_0000_0000_0000_0000_0000_0000 * a2
    + 0x200_0000_0000_0000_0000_0000_0000_0000_0000_0000 * a3
    + 0x1000_0000_0000_0000_0000_0000_0000_0000_0000_0000_0000_0000_0000 * a4
  }

  function Value(f: Fe): nat { Val51(f.a0, f.a1, f.a2, f.a3, f.a4) }

  /** p * k, for p = 2^255 - 19 */
  function TimesP(k: int): int {
    0x7fff_ffff_ffff_ffff_ffff_ffff_ffff_ffff_ffff_ffff_ffff_ffff_ffff_ffff_ffff_ffed * k
  }

  /** The residue modulo p. */
  function ModP(x: int): (r: nat)
    ensures r < TimesP(1)
  {
    x % 0x7fff_ffff_ffff_ffff_ffff_ffff_ffff_ffff_ffff_ffff_ffff_ffff_ffff_ffff_ffff_ffed
  }

  lemma ModPUnique(x: int, y: int, k: int)
    requires x == y + TimesP(k)
    ensures ModP(x) == ModP(y)
  {
    var d := x / 0x7fff_ffff_ffff_ffff_ffff_ffff_ffff_ffff_ffff_ffff_ffff_ffff_ffff_ffff_ffff_ffed
         - y / 0x7fff_ffff_ffff_ffff_ffff_ffff_ffff_ffff_ffff_ffff_ffff_ffff_ffff_ffff_ffff_ffed - k;
    assert 0x7fff_ffff_ffff_ffff_ffff_ffff_ffff_ffff_ffff_ffff_ffff_ffff_ffff_ffff_ffff_ffed * d == ModP(y) - ModP(x);
  }

  /** The product, mul64x64_128 on limbs; by repeated addition, so that it stays a name for the solver. */
  function Prod(a: int, b: int): int
    decreases if b < 0 then -b else b
  {
    if b == 0 then 0 else if b > 0 then Prod(a, b - 1) + a else Prod(a, b + 1) - a
  }

  lemma {:induction false} ProdIsProduct(a: int, b: int)
    ensures Prod(a, b) == a * b
    decreases if b < 0 then -b else b
  {
    if b > 0 {
      ProdIsProduct(a, b - 1);
    } else if b < 0 {
      ProdIsProduct(a, b + 1);
    }
  }

  lemma ProdCommutes(a: int, b: int)
    ensures Prod(a, b) == Prod(b, a)
  {
    hide Prod;
    ProdIsProduct(a, b);
    ProdIsProduct(b, a);
  }

  lemma ProdScale(c: int, a: int, b: int)
    requires c == 19 || c == 2 || c == 38
    ensures Prod(c * a, b) == c * Prod(a, b) && Prod(a, c * b) == c * Prod(a, b)
  {
    hide Prod;
    ProdIsProduct(a, b);
    ProdIsProduct(c * a, b);
    ProdIsProduct(a, c * b);
  }

  lemma ProdBound(a: nat, b: nat)
    requires a < TWO_54 && b < TWO_54
    ensures 0 <= Prod(a, b) <= 0x1000_0000_0000_0000_0000_0000_0000
  {
    hide Prod;
    ProdIsProduct(a, b);
    ProductLe(a, b, 0x40_0000_0000_0000, 0x40_0000_0000_0000);
  }

  lemma RowProduct(a: int, y0: int, y1: int, y2: int, y3: int, y4: int)
    ensures Prod(a, Val51(y0, y1, y2, y3, y4)) == Val51(Prod(a, y0), Prod(a, y1), Prod(a, y2), Prod(a, y3), Prod(a, y4))
  {
    hide Prod;
    ProdIsProduct(a, Val51(y0, y1, y2, y3, y4));
    ProdIsProduct(a, y0);
    ProdIsProduct(a, y1);
    ProdIsProduct(a, y2);
    ProdIsProduct(a, y3);
    ProdIsProduct(a, y4);
  }

  ghost predicate Below54(f: Fe) {
    f.a0 < TWO_54 && f.a1 < TWO_54 && f.a2 < TWO_54 && f.a3 < TWO_54 && f.a4 < TWO_54
  }

  /** What a multiplication returns: limbs below 2^51, but for a small carry left in limb 1. */
  ghost predicate Reduced(f: Fe) {
    && f.a0 < 0x8_0000_0000_0000 && f.a1 < 0x8_0000_0000_0000 + 0x2000 && f.a2 < 0x8_0000_0000_0000
    && f.a3 < 0x8_0000_0000_0000 && f.a4 < 0x8_0000_0000_0000
  }

  // Column k of the product of r and s: the products of weight 2^(51 k), and 19 times those of
  // weight 2^(51 (k + 5)), which wrap around modulo p.

  function T0(r: Fe, s: Fe): int {
    Prod(r.a0, s.a0) + 19 * (Prod(r.a4, s.a1) + Prod(r.a1, s.a4) + Prod(r.a2, s.a3) + Prod(r.a3, s.a2))
  }

  function T1(r: Fe, s: Fe): int {
    Prod(r.a0, s.a1) + Prod(r.a1, s.a0) + 19 * (Prod(r.a4, s.a2) + Prod(r.a2, s.a4) + Prod(r.a3, s.a3))
  }

  function T2(r: Fe, s: Fe): int {
    Prod(r.a0, s.a2) + Prod(r.a2, s.a0) + Prod(r.a1, s.a1) + 19 * (Prod(r.a4, s.a3) + Prod(r.a3, s.a4))
  }

  function T3(r: Fe, s: Fe): int {
    Prod(r.a0, s.a3) + Prod(r.a3, s.a0) + Prod(r.a1, s.a2) + Prod(r.a2, s.a1) + 19 * (Prod(r.a4, s.a4))
  }

  function T4(r: Fe, s: Fe): int {
    Prod(r.a0, s.a4) + Prod(r.a4, s.a0) + Prod(r.a3, s.a1) + Prod(r.a1, s.a3) + Prod(r.a2, s.a2)
  }

  /** Folding the high columns back subtracts a multiple of p. */
  lemma FoldColumns(p00: int, p01: int, p02: int, p03: int, p04: int,
                    p10: int, p11: int, p12: int, p13: int, p14: int,
                    p20: int, p21: int, p22: int, p23: int, p24: int,
                    p30: int, p31: int, p32: int, p33: int, p34: int,
                    p40: int, p41: int, p42: int, p43: int, p44: int) returns (k: int)
    ensures Val51(Val51(p00, p01, p02, p03, p04), Val51(p10, p11, p12, p13, p14), Val51(p20, p21, p22, p23, p24),
                  Val51(p30, p31, p32, p33, p34), Val51(p40, p41, p42, p43, p44))
         == Val51(p00 + 19 * (p41 + p14 + p23 + p32),
                  p01 + p10 + 19 * (p42 + p24 + p33),
                  p02 + p20 + p11 + 19 * (p43 + p34),
                  p03 + p30 + p12 + p21 + 19 * (p44),
                  p04 + p40 + p31 + p13 + p22) + TimesP(k)
  {
    k := p41 + p14 + p23 + p32 + 0x8_0000_0000_0000 * (p42 + p24 + p33) + 0x40_0000_0000_0000_0000_0000_0000 * (p43 + p34)
         + 0x200_0000_0000_0000_0000_0000_0000_0000_0000_0000 * p44;
  }

  /** The five columns represent the product modulo p. */
  lemma ColumnsOfProduct(r: Fe, s: Fe) returns (k: int)
    ensures Prod(Value(r), Value(s)) == Val51(T0(r, s), T1(r, s), T2(r, s), T3(r, s), T4(r, s)) + TimesP(k)
  {
    hide Val51, Prod, TimesP;
    ProdCommutes(Value(r), Value(s));
    RowProduct(Value(s), r.a0, r.a1, r.a2, r.a3, r.a4);
    ProdCommutes(Value(s), r.a0);
    RowProduct(r.a0, s.a0, s.a1, s.a2, s.a3, s.a4);
    ProdCommutes(Value(s), r.a1);
    RowProduct(r.a1, s.a0, s.a1, s.a2, s.a3, s.a4);
    ProdCommutes(Value(s), r.a2);
    RowProduct(r.a2, s.a0, s.a1, s.a2, s.a3, s.a4);
    ProdCommutes(Value(s), r.a3);
    RowProduct(r.a3, s.a0, s.a1, s.a2, s.a3, s.a4);
    ProdCommutes(Value(s), r.a4);
    RowProduct(r.a4, s.a0, s.a1, s.a2, s.a3, s.a4);
    k := FoldColumns(
      Prod(r.a0, s.a0), Prod(r.a0, s.a1), Prod(r.a0, s.a2), Prod(r.a0, s.a3), Prod(r.a0, s.a4),
      Prod(r.a1, s.a0), Prod(r.a1, s.a1), Prod(r.a1, s.a2), Prod(r.a1, s.a3), Prod(r.a1, s.a4),
      Prod(r.a2, s.a0), Prod(r.a2, s.a1), Prod(r.a2, s.a2), Prod(r.a2, s.a3), Prod(r.a2, s.a4),
      Prod(r.a3, s.a0), Prod(r.a3, s.a1), Prod(r.a3, s.a2), Prod(r.a3, s.a3), Prod(r.a3, s.a4),
      Prod(r.a4, s.a0), Prod(r.a4, s.a1), Prod(r.a4, s.a2), Prod(r.a4, s.a3), Prod(r.a4, s.a4));
  }

  /** Limbs below 2^54 keep every column below 77 * 2^108, and column 4 below 5 * 2^108. */
  lemma ColumnBounds(r: Fe, s: Fe)
    requires Below54(r) && Below54(s)
    ensures 0 <= T0(r, s) <= 77 * 0x1000_0000_0000_0000_0000_0000_0000
    ensures 0 <= T1(r, s) <= 59 * 0x1000_0000_0000_0000_0000_0000_0000
    ensures 0 <= T2(r, s) <= 41 * 0x1000_0000_0000_0000_0000_0000_0000
    ensures 0 <= T3(r, s) <= 23 * 0x1000_0000_0000_0000_0000_0000_0000
    ensures 0 <= T4(r, s) <= 5 * 0x1000_0000_0000_0000_0000_0000_0000
  {
    hide Prod;
    ProdBound(r.a0, s.a0); ProdBound(r.a0, s.a1); ProdBound(r.a0, s.a2); ProdBound(r.a0, s.a3); ProdBound(r.a0, s.a4);
    ProdBound(r.a1, s.a0); ProdBound(r.a1, s.a1); ProdBound(r.a1, s.a2); ProdBound(r.a1, s.a3); ProdBound(r.a1, s.a4);
    ProdBound(r.a2, s.a0); ProdBound(r.a2, s.a1); ProdBound(r.a2, s.a2); ProdBound(r.a2, s.a3); ProdBound(r.a2, s.a4);
    ProdBound(r.a3, s.a0); ProdBound(r.a3, s.a1); ProdBound(r.a3, s.a2); ProdBound(r.a3, s.a3); ProdBound(r.a3, s.a4);
    ProdBound(r.a4, s.a0); ProdBound(r.a4, s.a1); ProdBound(r.a4, s.a2); ProdBound(r.a4, s.a3); ProdBound(r.a4, s.a4);
  }

  /** A 128-bit column whose part above bit 51 fits in a word. */
  type Column = t: nat | t < 0x8_0000_0000_0000_0000_0000_0000_0000

  /** lo128(t) & reduce_mask_51 */
  function Low51(t: Column): Word { t % 0x1_0000_0000_0000_0000 % 0x8_0000_0000_0000 }

  /** shr128(c, t, 51) */
  function Shr51(t: Column): Word { t / 0x8_0000_0000_0000 }

  lemma Split51(t: Column)
    ensures t == 0x8_0000_0000_0000 * Shr51(t) + Low51(t) && Low51(t) < 0x8_0000_0000_0000
  {
    var k := t / 0x1_0000_0000_0000_0000;
    assert t % 0x1_0000_0000_0000_0000 == 0x8_0000_0000_0000 * (Shr51(t) - 0x2000 * k) + t % 0x8_0000_0000_0000;
  }

  lemma Shr51Bound(t: Column, n: nat)
    requires t <= 0x8_0000_0000_0000 * n
    ensures Shr51(t) <= n
  {
  }

  /** The carry chain that ends a multiplication: the carry out of limb 4 returns to limb 0 times 19. */
  method CarryColumns(t0: Column, x1: Column, x2: Column, x3: Column, x4: Column) returns (out: Fe, ghost k: int)
    requires x1 <= 77 * 0x1000_0000_0000_0000_0000_0000_0000 && x2 <= 77 * 0x1000_0000_0000_0000_0000_0000_0000
    requires x3 <= 77 * 0x1000_0000_0000_0000_0000_0000_0000 && x4 <= 5 * 0x1000_0000_0000_0000_0000_0000_0000
    ensures Reduced(out) && Val51(t0, x1, x2, x3, x4) == Value(out) + TimesP(k)
  {
    hide Low51, Shr51, TimesP, Val51;
    Split51(t0);
    var r0, c := Low51(t0), Shr51(t0);
    var t1: Column := x1 + c;
    Split51(t1);
    var r1, c1 := Low51(t1), Shr51(t1);
    var t2: Column := x2 + c1;
    Split51(t2);
    var r2, c2 := Low51(t2), Shr51(t2);
    var t3: Column := x3 + c2;
    Split51(t3);
    var r3, c3 := Low51(t3), Shr51(t3);
    var t4: Column := x4 + c3;
    Split51(t4);
    Shr51Bound(t4, 5 * 0x200_0000_0000_0000 + 0x2000);
    var r4, c4 := Low51(t4), Shr51(t4);
    var y0: Word := r0 + c4 * 19;
    var c5 := y0 / 0x8_0000_0000_0000;
    out := Fe(y0 % 0x8_0000_0000_0000, r1 + c5, r2, r3, r4);
    CarryIdentity(t0, x1, x2, x3, x4, c, c1, c2, c3, c4, c5, r0, r1, r2, r3, r4, y0 % 0x8_0000_0000_0000);
    k := c4;
  }

  lemma CarryIdentity(t0: int, t1: int, t2: int, t3: int, t4: int, c0: int, c1: int, c2: int, c3: int, c4: int, c5: int,
                      r0: int, r1: int, r2: int, r3: int, r4: int, y0: int)
    requires t0 == 0x8_0000_0000_0000 * c0 + r0 && t1 + c0 == 0x8_0000_0000_0000 * c1 + r1
    requires t2 + c1 == 0x8_0000_0000_0000 * c2 + r2
    requires t3 + c2 == 0x8_0000_0000_0000 * c3 + r3 && t4 + c3 == 0x8_0000_0000_0000 * c4 + r4
    requires r0 + c4 * 19 == 0x8_0000_0000_0000 * c5 + y0
    ensures Val51(t0, t1, t2, t3, t4) == Val51(y0, r1 + c5, r2, r3, r4) + TimesP(c4)
  {
  }

  /** out = in2 * in */
  method FeMul(in2: Fe, input: Fe) returns (out: Fe)
    requires Below54(in2) && Below54(input)
    ensures Reduced(out) && ModP(Value(out)) == ModP(Value(in2) * Value(input))
  {
    hide Prod, TimesP, Val51, ModP;
    var r, s := input, in2;
    MulColumns(r, s);
    ColumnBounds(r, s);
    var t0 := Prod(r.a0, s.a0);
    var t1 := Prod(r.a0, s.a1) + Prod(r.a1, s.a0);
    var t2 := Prod(r.a0, s.a2) + Prod(r.a2, s.a0) + Prod(r.a1, s.a1);
    var t3 := Prod(r.a0, s.a3) + Prod(r.a3, s.a0) + Prod(r.a1, s.a2) + Prod(r.a2, s.a1);
    var t4 := Prod(r.a0, s.a4) + Prod(r.a4, s.a0) + Prod(r.a3, s.a1) + Prod(r.a1, s.a3) + Prod(r.a2, s.a2);
    var r1: Word, r2: Word, r3: Word, r4: Word := 19 * r.a1, 19 * r.a2, 19 * r.a3, 19 * r.a4;
    t0 := t0 + Prod(r4, s.a1) + Prod(r1, s.a4) + Prod(r2, s.a3) + Prod(r3, s.a2);
    t1 := t1 + Prod(r4, s.a2) + Prod(r2, s.a4) + Prod(r3, s.a3);
    t2 := t2 + Prod(r4, s.a3) + Prod(r3, s.a4);
    t3 := t3 + Prod(r4, s.a4);
    ghost var k := ColumnsOfProduct(r, s);
    ghost var k';
    out, k' := CarryColumns(t0, t1, t2, t3, t4);
    ProductCongruent(r, s, out, k, k');
    ProdIsProduct(Value(s), Value(r));
  }

  lemma MulColumns(r: Fe, s: Fe)
    ensures Prod(19 * r.a4, s.a1) == 19 * Prod(r.a4, s.a1) && Prod(19 * r.a1, s.a4) == 19 * Prod(r.a1, s.a4)
    ensures Prod(19 * r.a2, s.a3) == 19 * Prod(r.a2, s.a3) && Prod(19 * r.a3, s.a2) == 19 * Prod(r.a3, s.a2)
    ensures Prod(19 * r.a4, s.a2) == 19 * Prod(r.a4, s.a2) && Prod(19 * r.a2, s.a4) == 19 * Prod(r.a2, s.a4)
    ensures Prod(19 * r.a3, s.a3) == 19 * Prod(r.a3, s.a3) && Prod(19 * r.a4, s.a3) == 19 * Prod(r.a4, s.a3)
    ensures Prod(19 * r.a3, s.a4) == 19 * Prod(r.a3, s.a4) && Prod(19 * r.a4, s.a4) == 19 * Prod(r.a4, s.a4)
  {
    hide Prod;
    ProdScale(19, r.a4, s.a1); ProdScale(19, r.a1, s.a4); ProdScale(19, r.a2, s.a3); ProdScale(19, r.a3, s.a2);
    ProdScale(19, r.a4, s.a2); ProdScale(19, r.a2, s.a4); ProdScale(19, r.a3, s.a3); ProdScale(19, r.a4, s.a3);
    ProdScale(19, r.a3, s.a4); ProdScale(19, r.a4, s.a4);
  }

  lemma ProductCongruent(r: Fe, s: Fe, out: Fe, k: int, k': int)
    requires Prod(Value(r), Value(s)) == Value(out) + TimesP(k') + TimesP(k)
    ensures ModP(Value(out)) == ModP(Prod(Value(s), Value(r)))
  {
    hide Prod, Val51;
    ProdCommutes(Value(r), Value(s));
    ModPUnique(Prod(Value(r), Value(s)), Value(out), k + k');
  }

  /** The columns of a square, each product of distinct limbs taken once and doubled. */
  method SquareColumns(r: Fe) returns (t0: Column, t1: Column, t2: Column, t3: Column, t4: Column)
    requires Below54(r)
    ensures t0 == T0(r, r) && t1 == T1(r, r) && t2 == T2(r, r) && t3 == T3(r, r) && t4 == T4(r, r)
  {
    hide Prod;
    ColumnBounds(r, r);
    var d0: Word, d1: Word, d2: Word := r.a0 * 2, r.a1 * 2, r.a2 * 2 * 19;
    var d419: Word := r.a4 * 19;
    var d4: Word := d419 * 2;
    SquareProducts(r);
    t0 := Prod(r.a0, r.a0) + Prod(d4, r.a1) + Prod(d2, r.a3);
    t1 := Prod(d0, r.a1) + Prod(d4, r.a2) + Prod(r.a3, r.a3 * 19);
    t2 := Prod(d0, r.a2) + Prod(r.a1, r.a1) + Prod(d4, r.a3);
    t3 := Prod(d0, r.a3) + Prod(d1, r.a2) + Prod(r.a4, d419);
    t4 := Prod(d0, r.a4) + Prod(d1, r.a3) + Prod(r.a2, r.a2);
  }

  lemma SquareProducts(r: Fe)
    ensures Prod(r.a4 * 19 * 2, r.a1) == 19 * (Prod(r.a4, r.a1) + Prod(r.a1, r.a4))
    ensures Prod(r.a2 * 2 * 19, r.a3) == 19 * (Prod(r.a2, r.a3) + Prod(r.a3, r.a2))
    ensures Prod(r.a0 * 2, r.a1) == Prod(r.a0, r.a1) + Prod(r.a1, r.a0)
    ensures Prod(r.a4 * 19 * 2, r.a2) == 19 * (Prod(r.a4, r.a2) + Prod(r.a2, r.a4))
    ensures Prod(r.a3, r.a3 * 19) == 19 * Prod(r.a3, r.a3)
    ensures Prod(r.a0 * 2, r.a2) == Prod(r.a0, r.a2) + Prod(r.a2, r.a0)
    ensures Prod(r.a4 * 19 * 2, r.a3) == 19 * (Prod(r.a4, r.a3) + Prod(r.a3, r.a4))
    ensures Prod(r.a0 * 2, r.a3) == Prod(r.a0, r.a3) + Prod(r.a3, r.a0)
    ensures Prod(r.a1 * 2, r.a2) == Prod(r.a1, r.a2) + Prod(r.a2, r.a1)
    ensures Prod(r.a4, r.a4 * 19) == 19 * Prod(r.a4, r.a4)
    ensures Prod(r.a0 * 2, r.a4) == Prod(r.a0, r.a4) + Prod(r.a4, r.a0)
    ensures Prod(r.a1 * 2, r.a3) == Prod(r.a1, r.a3) + Prod(r.a3, r.a1)
  {
    hide Prod;
    TwiceProduct(r.a4, r.a1); TwiceProduct(r.a2, r.a3); TwiceProduct(r.a0, r.a1); TwiceProduct(r.a4, r.a2);
    TwiceProduct(r.a0, r.a2); TwiceProduct(r.a4, r.a3); TwiceProduct(r.a0, r.a3); TwiceProduct(r.a1, r.a2);
    TwiceProduct(r.a0, r.a4); TwiceProduct(r.a1, r.a3); TwiceProduct(r.a3, r.a3); TwiceProduct(r.a4, r.a4);
  }

  lemma TwiceProduct(a: int, b: int)
    ensures Prod(a * 2, b) == Prod(a, b) + Prod(b, a)
    ensures Prod(a * 2 * 19, b) == 19 * (Prod(a, b) + Prod(b, a)) && Prod(a * 19 * 2, b) == 19 * (Prod(a, b) + Prod(b, a))
    ensures Prod(a, b * 19) == 19 * Prod(a, b)
  {
    hide Prod;
    ProdCommutes(a, b);
    ProdScale(2, a, b);
    ProdScale(38, a, b);
    ProdScale(19, a, b);
    assert a * 2 == 2 * a && a * 2 * 19 == 38 * a && a * 19 * 2 == 38 * a && b * 19 == 19 * b;
  }

  /** out = in^2 */
  method FeSquare(input: Fe) returns (out: Fe)
    requires Below54(input)
    ensures Reduced(out) && ModP(Value(out)) == ModP(Value(input) * Value(input))
  {
    hide Prod, TimesP, Val51, ModP, T0, T1, T2, T3, T4;
    ColumnBounds(input, input);
    var t0, t1, t2, t3, t4 := SquareColumns(input);
    ghost var k := ColumnsOfProduct(input, input);
    ghost var k';
    out, k' := CarryColumns(t0, t1, t2, t3, t4);
    ProductCongruent(input, input, out, k, k');
    ProdIsProduct(Value(input), Value(input));
  }

  /** shl128(c, t, 13): the high word of t << 13 */
  function Shl13(t: Column): Word { t * 0x2000 % 0x1_0000_0000_0000_0000_0000_0000_0000_0000 / 0x1_0000_0000_0000_0000 }

  lemma Shl13IsShr51(t: Column)
    ensures Shl13(t) == Shr51(t)
  {
    assert t * 0x2000 % 0x1_0000_0000_0000_0000_0000_0000_0000_0000 == t * 0x2000;
  }

  /** What repeated squaring returns: a small carry is left in limb 0. */
  ghost predicate ReducedLow(f: Fe) {
    && f.a0 < 0x8_0000_0000_0000 + 0x4_0000 && f.a1 < 0x8_0000_0000_0000 && f.a2 < 0x8_0000_0000_0000
    && f.a3 < 0x8_0000_0000_0000 && f.a4 < 0x8_0000_0000_0000
  }

  /** The carry step of repeated squaring: all columns carry at once, then the limbs carry once more. */
  method CarryParallel(t0: Column, t1: Column, t2: Column, t3: Column, t4: Column) returns (out: Fe, ghost k: int)
    requires t0 <= 77 * 0x1000_0000_0000_0000_0000_0000_0000 && t1 <= 77 * 0x1000_0000_0000_0000_0000_0000_0000
    requires t2 <= 77 * 0x1000_0000_0000_0000_0000_0000_0000
    requires t3 <= 77 * 0x1000_0000_0000_0000_0000_0000_0000 && t4 <= 5 * 0x1000_0000_0000_0000_0000_0000_0000
    ensures ReducedLow(out) && Val51(t0, t1, t2, t3, t4) == Value(out) + TimesP(k)
  {
    hide Low51, Shr51, Shl13, TimesP, Val51;
    Split51(t0); Split51(t1); Split51(t2); Split51(t3); Split51(t4);
    Shl13IsShr51(t0); Shl13IsShr51(t1); Shl13IsShr51(t2); Shl13IsShr51(t3); Shl13IsShr51(t4);
    Shr51Bound(t0, 77 * 0x200_0000_0000_0000); Shr51Bound(t1, 77 * 0x200_0000_0000_0000);
    Shr51Bound(t2, 77 * 0x200_0000_0000_0000);
    Shr51Bound(t3, 77 * 0x200_0000_0000_0000); Shr51Bound(t4, 5 * 0x200_0000_0000_0000);
    var x0: Word := Low51(t0) + Shl13(t4) * 19;
    var x1: Word := Low51(t1) + Shl13(t0);
    var x2: Word := Low51(t2) + Shl13(t1);
    var x3: Word := Low51(t3) + Shl13(t2);
    var x4: Word := Low51(t4) + Shl13(t3);
    out, k := CarryLimbs(x0, x1, x2, x3, x4);
    ParallelIdentity(t0, t1, t2, t3, t4, Shr51(t0), Shr51(t1), Shr51(t2), Shr51(t3), Shr51(t4), x0, x1, x2, x3, x4, k);
    k := k + Shr51(t4);
  }

  lemma ParallelIdentity(t0: int, t1: int, t2: int, t3: int, t4: int, c0: int, c1: int, c2: int, c3: int, c4: int,
                         x0: int, x1: int, x2: int, x3: int, x4: int, k: int)
    requires x0 == t0 - 0x8_0000_0000_0000 * c0 + c4 * 19 && x1 == t1 - 0x8_0000_0000_0000 * c1 + c0
    requires x2 == t2 - 0x8_0000_0000_0000 * c2 + c1 && x3 == t3 - 0x8_0000_0000_0000 * c3 + c2
    requires x4 == t4 - 0x8_0000_0000_0000 * c4 + c3
    ensures Val51(t0, t1, t2, t3, t4) == Val51(x0, x1, x2, x3, x4) + TimesP(c4)
    ensures TimesP(k + c4) == TimesP(k) + TimesP(c4)
  {
  }

  /** One carry pass over five words, with 19 times the top carry returned to limb 0. */
  method CarryLimbs(x0: Word, x1: Word, x2: Word, x3: Word, x4: Word) returns (out: Fe, ghost k: int)
    requires x1 < 0x1_0000_0000_0000_0000 - 0x2000 && x2 < 0x1_0000_0000_0000_0000 - 0x2000
    requires x3 < 0x1_0000_0000_0000_0000 - 0x2000 && x4 < 0x1_0000_0000_0000_0000 - 0x2000
    ensures ReducedLow(out) && Val51(x0, x1, x2, x3, x4) == Value(out) + TimesP(k)
    ensures 0 <= k <= x4 / 0x8_0000_0000_0000 + 1
    ensures out.a0 == x0 % 0x8_0000_0000_0000 + 19 * k
  {
    hide TimesP, Val51;
    var r0, c0 := x0 % 0x8_0000_0000_0000, x0 / 0x8_0000_0000_0000;
    var y1: Word := x1 + c0;
    var r1, c1 := y1 % 0x8_0000_0000_0000, y1 / 0x8_0000_0000_0000;
    var y2: Word := x2 + c1;
    var r2, c2 := y2 % 0x8_0000_0000_0000, y2 / 0x8_0000_0000_0000;
    var y3: Word := x3 + c2;
    var r3, c3 := y3 % 0x8_0000_0000_0000, y3 / 0x8_0000_0000_0000;
    var y4: Word := x4 + c3;
    var r4, c4 := y4 % 0x8_0000_0000_0000, y4 / 0x8_0000_0000_0000;
    out := Fe(r0 + c4 * 19, r1, r2, r3, r4);
    k := c4;
    LimbIdentity(x0, x1, x2, x3, x4, c0, c1, c2, c3, c4, r0, r1, r2, r3, r4);
  }

  lemma LimbIdentity(t0: int, t1: int, t2: int, t3: int, t4: int, c0: int, c1: int, c2: int, c3: int, c4: int,
                     r0: int, r1: int, r2: int, r3: int, r4: int)
    requires t0 == 0x8_0000_0000_0000 * c0 + r0 && t1 + c0 == 0x8_0000_0000_0000 * c1 + r1
    requires t2 + c1 == 0x8_0000_0000_0000 * c2 + r2
    requires t3 + c2 == 0x8_0000_0000_0000 * c3 + r3 && t4 + c3 == 0x8_0000_0000_0000 * c4 + r4
    ensures Val51(t0, t1, t2, t3, t4) == Val51(r0 + c4 * 19, r1, r2, r3, r4) + TimesP(c4)
  {
  }

  /** One round of repeated squaring. */
  method SquareRound(r: Fe) returns (out: Fe)
    requires Below54(r)
    ensures ReducedLow(out) && ModP(Value(out)) == ModP(Value(r) * Value(r))
  {
    hide Prod, TimesP, Val51, ModP, T0, T1, T2, T3, T4;
    ColumnBounds(r, r);
    var t0, t1, t2, t3, t4 := SquareColumns(r);
    ghost var k := ColumnsOfProduct(r, r);
    ghost var k';
    out, k' := CarryParallel(t0, t1, t2, t3, t4);
    ProductCongruent(r, r, out, k, k');
    ProdIsProduct(Value(r), Value(r));
  }
}
