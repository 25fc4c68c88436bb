/** The two scalar multiplications of ed25519-donna that consume recoded digits, over any abelian group. */
module ScalarMult {
  import opened Words
  import opened Groups
  import opened ScalarLimbs
  import SW = SlidingWindow

  /** a*p + b*q */
  function Combination<P(!new)>(g: Group<P>, a: int, p: P, b: int, q: P): P {
    g.add(Mul(g, a, p), Mul(g, b, q))
  }

  lemma CombinationDouble<P(!new)>(g: Group<P>, a: int, p: P, b: int, q: P)
    requires Abelian(g)
    ensures g.add(Combination(g, a, p, b, q), Combination(g, a, p, b, q)) == Combination(g, 2 * a, p, 2 * b, q)
  {
    Interchange(g, Mul(g, a, p), Mul(g, b, q), Mul(g, a, p), Mul(g, b, q));
    MulAdd(g, a, a, p);
    MulAdd(g, b, b, q);
  }

  lemma CombinationAddLeft<P(!new)>(g: Group<P>, a: int, p: P, b: int, q: P, d: int)
    requires Abelian(g)
    ensures g.add(Combination(g, a, p, b, q), Mul(g, d, p)) == Combination(g, a + d, p, b, q)
  {
    var x, y, z := Mul(g, a, p), Mul(g, b, q), Mul(g, d, p);
    Laws(g, x, y, z);
    Laws(g, y, z, x);
    Laws(g, x, z, y);
    MulAdd(g, a, d, p);
  }

  lemma CombinationAddRight<P(!new)>(g: Group<P>, a: int, p: P, b: int, q: P, d: int)
    requires Abelian(g)
    ensures g.add(Combination(g, a, p, b, q), Mul(g, d, q)) == Combination(g, a, p, b + d, q)
  {
    Laws(g, Mul(g, a, p), Mul(g, b, q), Mul(g, d, q));
    MulAdd(g, b, d, q);
  }

  lemma CombinationZero<P(!new)>(g: Group<P>, p: P, q: P)
    requires Abelian(g)
    ensures Combination(g, 0, p, 0, q) == g.zero
  {
    Laws(g, g.zero, g.zero, g.zero);
  }

  /** Entry i of a table of odd multiples is (2i + 1)*p. */
  ghost predicate OddMultiples<P(!new)>(g: Group<P>, table: seq<P>, p: P) {
    forall i :: 0 <= i < |table| ==> table[i] == Mul(g, 2 * i + 1, p)
  }

  function Abs(d: int): nat { if d < 0 then -d else d }

  /** Add entry |d| / 2 to r, or subtract it when the digit d is negative. */
  method AddSigned<P(!new)>(g: Group<P>, r: P, table: seq<P>, d: int, ghost p: P) returns (t: P)
    requires Abelian(g) && OddMultiples(g, table, p) && d % 2 == 1 && Abs(d) / 2 < |table|
    ensures t == g.add(r, Mul(g, d, p))
  {
    var entry := table[Abs(d) / 2];
    assert 2 * (Abs(d) / 2) + 1 == Abs(d);
    MulNeg(g, Abs(d), p);
    t := if d < 0 then g.add(r, g.neg(entry)) else g.add(r, entry);
  }

  /** pre1[i + 1] = 2*p + pre1[i], from pre1[0] = p */
  method BuildTable<P(!new)>(g: Group<P>, p: P, size: nat) returns (table: seq<P>)
    requires Abelian(g) && size >= 1
    ensures |table| == size && OddMultiples(g, table, p)
  {
    hide Mul;
    var double := g.add(p, p);
    MulOne(g, p);
    table := [p];
    for i := 0 to size - 1
      invariant |table| == i + 1 && OddMultiples(g, table, p)
    {
      MulAdd(g, 2, 2 * i + 1, p);
      table := table + [g.add(double, table[i])];
    }
  }

  /** Window size 5 for p1 and 7 for the base point, with tables of 8 and 32 odd multiples. */
  const TABLE1 := 8
  const TABLE2 := 32

  lemma DigitInTable(d: seq<int>, v: int, w: nat, i: nat)
    requires w > 0 && SW.Recoded(d, v, w) && i < SW.LEN && d[i] != 0
    ensures d[i] % 2 == 1
    ensures w == 5 ==> Abs(d[i]) / 2 < TABLE1
    ensures w == 7 ==> Abs(d[i]) / 2 < TABLE2
  {
    SW.Pow2Table();
    assert SW.SmallDigit(d[i], w);
  }

  /** [s1]p1 + [s2]base, by interleaved double-and-add over both digit strings. */
  method DoubleScalarmult<P(!new)>(g: Group<P>, p1: P, s1: Scalar, s2: Scalar, base: P, multiples: seq<P>) returns (r: P)
    requires Abelian(g) && |multiples| == TABLE2 && OddMultiples(g, multiples, base)
    requires Value(s1) < Pow2(255) && Value(s2) < Pow2(255)
    ensures r == g.add(Mul(g, Value(s1), p1), Mul(g, Value(s2), base))
  {
    hide Mul, Low, SW.OddAndSmall, SW.Sparse, SW.Horner, Pow2, Abelian, OddMultiples, Combination;
    var slide1 := new SChar[256];
    var slide2 := new SChar[256];
    SW.Recode(slide1, s1, 5);
    SW.Recode(slide2, s2, 7);
    var pre1 := BuildTable(g, p1, TABLE1);
    ghost var d1, d2 := slide1[..], slide2[..];
    r := g.zero;
    var i := 255;
    SW.HornerEnd(d1);
    SW.HornerEnd(d2);
    while i >= 0 && slide1[i] == 0 && slide2[i] == 0
      invariant -1 <= i <= 255
      invariant slide1[..] == d1 && slide2[..] == d2
      invariant SW.Horner(d1, i + 1) == 0 && SW.Horner(d2, i + 1) == 0
    {
      HornerStep(d1, i);
      HornerStep(d2, i);
      i := i - 1;
    }
    CombinationZero(g, p1, base);
    while i >= 0
      invariant -1 <= i <= 255
      invariant slide1[..] == d1 && slide2[..] == d2
      invariant r == Combination(g, SW.Horner(d1, i + 1), p1, SW.Horner(d2, i + 1), base)
    {
      ghost var a, b := SW.Horner(d1, i + 1), SW.Horner(d2, i + 1);
      HornerStep(d1, i);
      HornerStep(d2, i);
      CombinationDouble(g, a, p1, b, base);
      r := g.add(r, r);
      if slide1[i] != 0 {
        DigitInTable(d1, Value(s1), 5, i);
        CombinationAddLeft(g, 2 * a, p1, 2 * b, base, slide1[i]);
        r := AddSigned(g, r, pre1, slide1[i], p1);
      }
      if slide2[i] != 0 {
        DigitInTable(d2, Value(s2), 7, i);
        CombinationAddRight(g, SW.Horner(d1, i), p1, 2 * b, base, slide2[i]);
        r := AddSigned(g, r, multiples, slide2[i], base);
      }
      i := i - 1;
    }
    CombinationIs(g, Value(s1), p1, Value(s2), base);
  }

  lemma HornerStep(d: seq<int>, i: nat)
    requires i < |d|
    ensures SW.Horner(d, i) == d[i] + 2 * SW.Horner(d, i + 1)
  {
  }

  lemma CombinationIs<P(!new)>(g: Group<P>, a: int, p: P, b: int, q: P)
    ensures Combination(g, a, p, b, q) == g.add(Mul(g, a, p), Mul(g, b, q))
  {
  }
}
