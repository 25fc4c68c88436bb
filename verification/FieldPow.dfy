/** Powers in the field: repeated squaring, the inverse z^(p - 2) and z^((p - 5) / 8). */
module FieldPow {
  import opened Words
  import opened Field

  /** x^n mod p */
  function PowP(x: int, n: nat): nat {
    if n == 0 then 1 else ModP(Prod(x, PowP(x, n - 1)))
  }

  lemma ModPIdempotent(a: int)
    ensures ModP(ModP(a)) == ModP(a)
  {
    var k := ModPQuotient(a);
  }

  lemma ModPQuotient(a: int) returns (k: int)
    ensures a == ModP(a) + TimesP(k) && ModP(ModP(a)) == ModP(a)
  {
    k := a / 0x7fff_ffff_ffff_ffff_ffff_ffff_ffff_ffff_ffff_ffff_ffff_ffff_ffff_ffff_ffff_ffed;
    ModPUnique(a, ModP(a), k);
  }

  /** Residues multiply. */
  lemma ModPMul(a: int, a': int, b: int, b': int)
    requires ModP(a) == ModP(a') && ModP(b) == ModP(b')
    ensures ModP(Prod(a, b)) == ModP(Prod(a', b'))
  {
    hide ModP, TimesP, Prod;
    var i := ModPQuotient(a);
    var i' := ModPQuotient(a');
    var j := ModPQuotient(b);
    var j' := ModPQuotient(b');
    TimesPDifference(i, i');
    TimesPDifference(j, j');
    MulCongruent(a, a', i - i', b, b', j - j');
  }

  lemma TimesPDifference(i: int, j: int)
    ensures TimesP(i - j) == TimesP(i) - TimesP(j)
  {
  }

  lemma MulCongruent(a: int, a': int, i: int, b: int, b': int, j: int)
    requires a == a' + TimesP(i) && b == b' + TimesP(j)
    ensures ModP(Prod(a, b)) == ModP(Prod(a', b'))
  {
    hide ModP, Prod;
    var k := i * b + a' * j;
    ProdIsProduct(a, b);
    ProdIsProduct(a', b');
    assert TimesP(i) * b == TimesP(i * b);
    assert a' * TimesP(j) == TimesP(a' * j);
    assert a * b == a' * b' + TimesP(k) by {
      assert a * b == a' * b + TimesP(i) * b;
      assert a' * b == a' * b' + a' * TimesP(j);
    }
    ModPUnique(Prod(a, b), Prod(a', b'), k);
  }

  /** The modulus of the field. */
  lemma PrimeIs()
    ensures TimesP(1) == Pow2(255) - 19
  {
    hide Pow2;
    Pow2Small();
    Pow2Bytes();
    Pow2Sum(56, 56);
    Pow2Sum(112, 112);
    Pow2Sum(224, 24);
    Pow2Sum(248, 7);
  }

  lemma PowPReduced(x: int, n: nat)
    ensures ModP(PowP(x, n)) == PowP(x, n)
  {
    if n > 0 { ModPIdempotent(Prod(x, PowP(x, n - 1))); }
  }

  lemma {:induction false} PowPAdd(x: int, m: nat, n: nat)
    ensures PowP(x, m + n) == ModP(Prod(PowP(x, m), PowP(x, n)))
  {
    hide ModP, Prod;
    if m == 0 {
      PowPReduced(x, n);
      ProdIsProduct(1, PowP(x, n));
    } else {
      var u, v, w := PowP(x, m - 1), PowP(x, n), PowP(x, m + n - 1);
      PowPAdd(x, m - 1, n);
      assert m - 1 + n == m + n - 1;
      ModPIdempotent(Prod(u, v));
      ModPMul(x, x, w, Prod(u, v));
      ModPIdempotent(Prod(x, u));
      ModPMul(PowP(x, m), Prod(x, u), v, v);
      MulAssociates(x, u, v);
    }
  }

  lemma MulAssociates(x: int, u: int, v: int)
    ensures Prod(x, Prod(u, v)) == Prod(Prod(x, u), v)
  {
    hide Prod;
    ProdIsProduct(x, u);
    ProdIsProduct(u, v);
    ProdIsProduct(x, u * v);
    ProdIsProduct(x * u, v);
    assert x * (u * v) == (x * u) * v;
  }

  /** f holds z^n, with limbs fit for a multiplication. */
  ghost predicate Holds(f: Fe, z: int, n: nat) {
    Below54(f) && ModP(Value(f)) == PowP(z, n)
  }

  method MulPowers(a: Fe, b: Fe, ghost z: int, ghost m: nat, ghost n: nat) returns (out: Fe)
    requires Holds(a, z, m) && Holds(b, z, n)
    ensures Holds(out, z, m + n)
  {
    hide ModP, PowP, Val51, Prod;
    out := FeMul(a, b);
    PowPReduced(z, m);
    PowPReduced(z, n);
    ProdIsProduct(Value(a), Value(b));
    ModPMul(Value(a), PowP(z, m), Value(b), PowP(z, n));
    PowPAdd(z, m, n);
  }

  /** out = in^(2^count), by count squarings; a count of zero is not supported. */
  method SquareTimes(input: Fe, count: nat, ghost z: int, ghost n: nat) returns (out: Fe)
    requires count >= 1 && Holds(input, z, n)
    ensures Holds(out, z, Shifted(n, count)) && ReducedLow(out)
  {
    hide ModP, PowP, Val51, Shifted, Prod;
    var left := count;
    var r := input;
    ghost var e := n;
    Pow2Unit(n);
    while left > 0
      invariant 0 <= left <= count
      invariant Holds(r, z, e) && e == Shifted(n, count - left)
      invariant left < count ==> ReducedLow(r)
    {
      var s := SquareRound(r);
      PowPReduced(z, e);
      ProdIsProduct(Value(r), Value(r));
      ModPMul(Value(r), PowP(z, e), Value(r), PowP(z, e));
      PowPAdd(z, e, e);
      Pow2Double(n, count - left);
      r, e, left := s, e + e, left - 1;
    }
    out := r;
  }

  /** n * 2^k */
  function Shifted(n: nat, k: nat): nat {
    MulBounds(n, Pow2(k));
    n * Pow2(k)
  }

  lemma Pow2Unit(n: nat)
    ensures Shifted(n, 0) == n
  {
  }

  lemma Pow2Double(n: nat, k: nat)
    ensures Shifted(n, k + 1) == Shifted(n, k) + Shifted(n, k)
  {
    assert n * (2 * Pow2(k)) == n * Pow2(k) + n * Pow2(k);
  }

  /** 2^k - 1 */
  function Ones(k: nat): nat { Pow2(k) - 1 }

  /** k ones followed by j ones. */
  lemma OnesJoin(k: nat, j: nat)
    ensures Shifted(Ones(k), j) + Ones(j) == Ones(k + j)
  {
    hide Pow2;
    Pow2Sum(k, j);
    LessOne(Pow2(k), Pow2(j));
  }

  lemma LessOne(p: int, q: int)
    ensures (p - 1) * q == p * q - q
  {
  }

  /** From z^(2^k - 1) and z^(2^j - 1) to z^(2^(k + j) - 1). */
  method JoinOnes(a: Fe, k: nat, b: Fe, j: nat, ghost z: int) returns (out: Fe)
    requires j >= 1 && Holds(a, z, Ones(k)) && Holds(b, z, Ones(j))
    ensures Holds(out, z, Ones(k + j))
  {
    hide Shifted, PowP, ModP, Ones;
    var t0 := SquareTimes(a, j, z, Ones(k));
    out := MulPowers(t0, b, z, Shifted(Ones(k), j), Ones(j));
    OnesJoin(k, j);
  }

  /** b = z^(2^5 - 1) becomes z^(2^250 - 1). */
  method PowTwo5ToTwo250(b5: Fe, ghost z: int) returns (b: Fe)
    requires Holds(b5, z, Ones(5))
    ensures Holds(b, z, Ones(250))
  {
    hide Holds, Ones;
    var b10 := JoinOnes(b5, 5, b5, 5, z);
    var c20 := JoinOnes(b10, 10, b10, 10, z);
    var t40 := JoinOnes(c20, 20, c20, 20, z);
    var b50 := JoinOnes(t40, 40, b10, 10, z);
    var c100 := JoinOnes(b50, 50, b50, 50, z);
    var t200 := JoinOnes(c100, 100, c100, 100, z);
    b := JoinOnes(t200, 200, b50, 50, z);
  }

  /** The common start of both chains: z^11 and z^(2^5 - 1). */
  method PowStart(z: Fe) returns (a11: Fe, b31: Fe)
    requires Below54(z)
    ensures Holds(a11, Value(z), 11) && Holds(b31, Value(z), Ones(5))
  {
    hide PowP, ModP, Val51;
    ghost var v := Value(z);
    PowPOne(z);
    SmallExponents();
    var a2 := SquareTimes(z, 1, v, 1);
    var t8 := SquareTimes(a2, 2, v, 2);
    var b9 := MulPowers(t8, z, v, 8, 1);
    a11 := MulPowers(b9, a2, v, 9, 2);
    var t22 := SquareTimes(a11, 1, v, 11);
    b31 := MulPowers(t22, b9, v, 22, 9);
  }

  lemma PowPOne(z: Fe)
    requires Below54(z)
    ensures Holds(z, Value(z), 1)
  {
    hide Prod, Val51, ModP;
    assert PowP(Value(z), 1) == ModP(Prod(Value(z), PowP(Value(z), 0)));
    ProdIsProduct(Value(z), 1);
  }

  lemma SmallExponents()
    ensures Shifted(1, 1) == 2 && Shifted(2, 2) == 8 && Shifted(11, 1) == 22 && Ones(5) == 31
  {
    assert Pow2(1) == 2 && Pow2(2) == 4 && Pow2(5) == 32;
  }

  /** z^(p - 2) = z^(2^255 - 21) */
  method Recip(z: Fe) returns (out: Fe)
    requires Below54(z)
    ensures Below54(out) && ModP(Value(out)) == PowP(Value(z), Pow2(255) - 21)
  {
    hide PowP, ModP, Val51, Pow2, Ones, Shifted;
    ghost var v := Value(z);
    var a, b := PowStart(z);
    b := PowTwo5ToTwo250(b, v);
    b := SquareTimes(b, 5, v, Ones(250));
    out := MulPowers(b, a, v, Shifted(Ones(250), 5), 11);
    TopExponents();
  }

  /** z^((p - 5) / 8) = z^(2^252 - 3) */
  method PowTwo252m3(z: Fe) returns (out: Fe)
    requires Below54(z)
    ensures Below54(out) && ModP(Value(out)) == PowP(Value(z), Pow2(252) - 3)
  {
    hide PowP, ModP, Val51, Pow2, Ones, Shifted;
    ghost var v := Value(z);
    var c, b := PowStart(z);
    b := PowTwo5ToTwo250(b, v);
    b := SquareTimes(b, 2, v, Ones(250));
    PowPOne(z);
    out := MulPowers(b, z, v, Shifted(Ones(250), 2), 1);
    TopExponents();
  }

  lemma TopExponents()
    ensures Shifted(Ones(250), 5) + 11 == Pow2(255) - 21
    ensures Shifted(Ones(250), 2) + 1 == Pow2(252) - 3
  {
    hide Pow2;
    SmallPowers();
    OnesJoin(250, 5);
    OnesJoin(250, 2);
  }

  lemma SmallPowers()
    ensures Pow2(5) == 32 && Pow2(2) == 4
  {
  }
}
