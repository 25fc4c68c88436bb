/** Fixed-base scalar multiplication from a table of small multiples of 256^i times the base point. */
module BaseMult {
  import opened Words
  import opened Bitwise
  import opened Groups
  import opened ScalarLimbs
  import W4 = Window4
  import SW = SlidingWindow

  /** Entry 8*i + k of the table is (k + 1) * 256^i times the base point. */
  ghost predicate BaseTable<P(!new)>(g: Group<P>, table: seq<P>, base: P) {
    |table| == 256 && forall i, k :: 0 <= i < 32 && 0 <= k < 8 ==> Entry(table, i, k) == Mul(g, (k + 1) * Pow2(8 * i), base)
  }

  function Entry<P>(table: seq<P>, i: nat, k: nat): P
    requires |table| == 256 && i < 32 && k < 8
  {
    table[8 * i + k]
  }

  /**
   * The multiple b of 256^pos times the base point: all eight entries are looked at, and the one
   * whose number equals the absolute value of b is kept.
   */
  method Choose<P(!new)>(g: Group<P>, table: seq<P>, pos: nat, b: int, ghost base: P) returns (t: P)
    requires Abelian(g) && BaseTable(g, table, base) && pos < 32 && -8 <= b <= 8
    ensures t == Mul(g, b * Pow2(8 * pos), base)
  {
    hide Mul, Pow2, Abelian, AbsByMask, EqualBit;
    var sign := b % 0x100 / 0x80;
    var u := AbsByMask(b, sign);
    MulOne(g, base);
    t := g.zero;
    for i := 0 to 8
      invariant t == if 1 <= u <= i then Mul(g, u * Pow2(8 * pos), base) else g.zero
    {
      if EqualBit(u, i + 1) == 1 {
        assert Entry(table, pos, i) == Mul(g, u * Pow2(8 * pos), base);
        t := table[pos * 8 + i];
      }
    }
    assert 0 * Pow2(8 * pos) == 0;
    if sign == 1 {
      MulNeg(g, u * Pow2(8 * pos), base);
      assert -(u * Pow2(8 * pos)) == b * Pow2(8 * pos);
      t := g.neg(t);
    }
  }

  /** The sum of the first n digits of parity `odd`, with weights 256^i. */
  function Half(d: seq<int>, odd: nat, n: nat): int
    requires odd <= 1 && 2 * n <= |d|
  {
    if n == 0 then 0 else Half(d, odd, n - 1) + d[2 * (n - 1) + odd] * Pow2(8 * (n - 1))
  }

  /** Sixteen times the odd half plus the even half is the whole. */
  lemma {:induction false} HalvesMakeWhole(d: seq<int>, n: nat, rest: int)
    requires 2 * n <= |d|
    ensures W4.HornerTo16(d, 0, 2 * n, rest) == Half(d, 0, n) + 16 * Half(d, 1, n) + Pow2(8 * n) * rest
  {
    hide Pow2, W4.HornerTo16;
    if n == 0 {
      SW.Pow2Zero();
      W4.Start(d, rest);
    } else {
      var m := 2 * n - 2;
      assert m + 2 == 2 * n && 8 * (n - 1) + 4 + 4 == 8 * n;
      W4.Append(d, d, 0, m + 1, rest);
      W4.Append(d, d, 0, m, d[m + 1] + 16 * rest);
      HalvesMakeWhole(d, n - 1, d[m] + 16 * (d[m + 1] + 16 * rest));
      W4.Shift4(8 * (n - 1), 0);
      W4.Shift4(8 * (n - 1) + 4, 0);
      Regroup(Pow2(8 * (n - 1)), d[m], d[m + 1], rest);
    }
  }

  lemma Regroup(p: int, a: int, b: int, rest: int)
    ensures p * (a + 16 * (b + 16 * rest)) == a * p + 16 * (b * p) + (256 * p) * rest
  {
  }

  /** [s]base */
  method ScalarmultBase<P(!new)>(g: Group<P>, table: seq<P>, s: Scalar, ghost base: P) returns (r: P)
    requires Abelian(g) && BaseTable(g, table, base) && Value(s) < Pow2(255)
    ensures r == Mul(g, Value(s), base)
  {
    hide Mul, Pow2, Abelian, Low, W4.Horner16, W4.HornerTo16, BaseTable, Half;
    var b := new SChar[64];
    W4.Recode(b, s);
    ghost var d: seq<int> := b[..];
    HalfStart(d);
    r := Choose(g, table, 0, b[1], base);
    ghost var n := 1;
    var i := 3;
    while i < 64
      invariant i == 2 * n + 1 && 1 <= n <= 32
      invariant b[..] == d && r == Mul(g, Half(d, 1, n), base)
    {
      var t := Choose(g, table, i / 2, b[i], base);
      HalfStep(d, 1, n);
      MulAdd(g, Half(d, 1, n), d[i] * Pow2(8 * n), base);
      r := g.add(r, t);
      i, n := i + 2, n + 1;
    }
    ghost var odd := Half(d, 1, 32);
    r := Double(g, r, odd, base);
    r := Double(g, r, 2 * odd, base);
    r := Double(g, r, 4 * odd, base);
    r := Double(g, r, 8 * odd, base);
    var t := Choose(g, table, 0, b[0], base);
    MulAdd(g, 16 * odd, Half(d, 0, 1), base);
    r := g.add(r, t);
    i, n := 2, 1;
    while i < 64
      invariant i == 2 * n && 1 <= n <= 32
      invariant b[..] == d && r == Mul(g, 16 * odd + Half(d, 0, n), base)
    {
      t := Choose(g, table, i / 2, b[i], base);
      HalfStep(d, 0, n);
      MulAdd(g, 16 * odd + Half(d, 0, n), d[i] * Pow2(8 * n), base);
      r := g.add(r, t);
      i, n := i + 2, n + 1;
    }
    WholeValue(d);
  }

  lemma WholeValue(d: seq<int>)
    requires |d| == 64
    ensures 16 * Half(d, 1, 32) + Half(d, 0, 32) == W4.Horner16(d, 0)
  {
    hide Half, W4.Horner16, W4.HornerTo16, Pow2;
    HalvesMakeWhole(d, 32, 0);
    W4.Ends(d, 0);
  }

  lemma HalfStart(d: seq<int>)
    requires |d| == 64
    ensures Half(d, 1, 1) == d[1] * Pow2(8 * 0) && Half(d, 0, 1) == d[0] * Pow2(8 * 0)
  {
    assert Half(d, 1, 0) == 0 && Half(d, 0, 0) == 0;
  }

  lemma HalfStep(d: seq<int>, odd: nat, n: nat)
    requires odd <= 1 && 2 * n + 2 <= |d|
    ensures Half(d, odd, n + 1) == Half(d, odd, n) + d[2 * n + odd] * Pow2(8 * n)
  {
  }

  method Double<P(!new)>(g: Group<P>, p: P, ghost n: int, ghost base: P) returns (r: P)
    requires Abelian(g) && p == Mul(g, n, base)
    ensures r == Mul(g, 2 * n, base)
  {
    MulAdd(g, n, n, base);
    r := g.add(p, p);
  }
}
