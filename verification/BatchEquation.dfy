/**
 * The equation of batch verification: the scalars and points that ed25519_sign_open_batch hands
 * to the multi-scalar multiplication sum to a random combination of the single equations.
 */
module BatchEquation {
  import opened Words
  import opened Groups
  import opened Divisors
  import opened ScalarMod
  import opened Ed25519
  import SR = ScalarRun
  import BC = BosCarter
  import BX = BatchExactness

  /** One signature as batch verification sees it: S, H(R, A, m), -A, -R, and its 128-bit factor. */
  datatype Claim<!P> = Claim(s: nat, h: nat, negA: P, negR: P, r: nat)

  /** Points that the group order kills. */
  ghost predicate HasOrder<P(!new)>(g: Group<P>, p: P) { Mul(g, ORDER, p) == g.zero }

  ghost predicate InSubgroup<P(!new)>(g: Group<P>, claims: seq<Claim<P>>, base: P) {
    HasOrder(g, base) && forall i :: 0 <= i < |claims| ==> HasOrder(g, claims[i].negA)
  }

  /** [S]B - [h]A - R, which is zero for a valid signature. */
  function Residual<P(!new)>(g: Group<P>, base: P, c: Claim<P>): P {
    g.add(g.add(Mul(g, c.s, base), Mul(g, c.h, c.negA)), c.negR)
  }

  /** sum of r_i * s_i mod m, accumulated as the loop does */
  function FirstScalar<P>(claims: seq<Claim<P>>, n: nat): nat
    requires n <= |claims|
  {
    if n == 0 then 0 else ModOrder(FirstScalar(claims, n - 1) + TimesMod(claims[n - 1].s, claims[n - 1].r))
  }

  /** scalars[0], scalars[1..n], scalars[n+1..2n] */
  function Scalars<P>(claims: seq<Claim<P>>): (s: seq<nat>)
    ensures |s| == 2 * |claims| + 1
  {
    [FirstScalar(claims, |claims|)]
    + seq(|claims|, i requires 0 <= i < |claims| => TimesMod(claims[i].h, claims[i].r))
    + seq(|claims|, i requires 0 <= i < |claims| => claims[i].r)
  }

  /** points[0] = B, points[1..n] = -A, points[n+1..2n] = -R */
  function Points<P>(base: P, claims: seq<Claim<P>>): (p: seq<P>)
    ensures |p| == 2 * |claims| + 1
  {
    [base] + seq(|claims|, i requires 0 <= i < |claims| => claims[i].negA)
    + seq(|claims|, i requires 0 <= i < |claims| => claims[i].negR)
  }

  lemma EntryA<P>(base: P, claims: seq<Claim<P>>, n: nat)
    requires 1 <= n <= |claims|
    ensures Scalars(claims)[n] == TimesMod(claims[n - 1].h, claims[n - 1].r)
    ensures Points(base, claims)[n] == claims[n - 1].negA
  {
  }

  lemma EntryR<P>(base: P, claims: seq<Claim<P>>, n: nat)
    requires 1 <= n <= |claims|
    ensures Scalars(claims)[|claims| + n] == claims[n - 1].r && Points(base, claims)[|claims| + n] == claims[n - 1].negR
  {
  }

  lemma Entry0<P>(base: P, claims: seq<Claim<P>>)
    ensures Scalars(claims)[0] == FirstScalar(claims, |claims|) && Points(base, claims)[0] == base
  {
  }

  /** sum of r_i times the residual of claim i */
  function Weighted<P(!new)>(g: Group<P>, base: P, claims: seq<Claim<P>>, n: nat): P
    requires n <= |claims|
  {
    if n == 0 then g.zero
    else g.add(Weighted(g, base, claims, n - 1), Mul(g, claims[n - 1].r, Residual(g, base, claims[n - 1])))
  }

  /** The three parts of the sum, up to claim n. */
  function PartA<P(!new)>(g: Group<P>, claims: seq<Claim<P>>, n: nat): P
    requires n <= |claims|
  {
    if n == 0 then g.zero
    else g.add(PartA(g, claims, n - 1), Mul(g, TimesMod(claims[n - 1].h, claims[n - 1].r), claims[n - 1].negA))
  }

  function PartR<P(!new)>(g: Group<P>, claims: seq<Claim<P>>, n: nat): P
    requires n <= |claims|
  {
    if n == 0 then g.zero else g.add(PartR(g, claims, n - 1), Mul(g, claims[n - 1].r, claims[n - 1].negR))
  }

  lemma {:induction false} SumThroughA<P(!new)>(g: Group<P>, base: P, claims: seq<Claim<P>>, n: nat)
    requires Abelian(g) && n <= |claims|
    ensures Msm(g, Scalars(claims), Points(base, claims), n + 1)
         == g.add(Mul(g, FirstScalar(claims, |claims|), base), PartA(g, claims, n))
  {
    hide Scalars, Points, Mul, FirstScalar, Abelian, TimesMod;
    var s, p := Scalars(claims), Points(base, claims);
    var first := Mul(g, FirstScalar(claims, |claims|), base);
    if n == 0 {
      Entry0(base, claims);
      Laws(g, g.zero, first, first);
      Laws(g, first, g.zero, first);
      assert Msm(g, s, p, 1) == g.add(Msm(g, s, p, 0), Mul(g, s[0], p[0]));
    } else {
      SumThroughA(g, base, claims, n - 1);
      EntryA(base, claims, n);
      Laws(g, first, PartA(g, claims, n - 1), Mul(g, s[n], p[n]));
    }
  }

  lemma {:induction false} SumThroughR<P(!new)>(g: Group<P>, base: P, claims: seq<Claim<P>>, n: nat)
    requires Abelian(g) && n <= |claims|
    ensures Msm(g, Scalars(claims), Points(base, claims), |claims| + 1 + n)
         == g.add(g.add(Mul(g, FirstScalar(claims, |claims|), base), PartA(g, claims, |claims|)), PartR(g, claims, n))
  {
    hide Scalars, Points, Mul, FirstScalar, Abelian, PartA;
    var s, p := Scalars(claims), Points(base, claims);
    var k := |claims|;
    SumThroughA(g, base, claims, k);
    var front := g.add(Mul(g, FirstScalar(claims, k), base), PartA(g, claims, k));
    if n == 0 {
      Laws(g, front, front, front);
    } else {
      SumThroughR(g, base, claims, n - 1);
      EntryR(base, claims, n);
      Laws(g, front, PartR(g, claims, n - 1), Mul(g, s[k + n], p[k + n]));
    }
  }

  /** What reducing h * r modulo the order drops from (h * r) * p; nothing for p in the subgroup. */
  function Dropped<P(!new)>(g: Group<P>, p: P, h: nat, r: nat): P {
    MulBounds(h, r);
    Mul(g, Quotient(h * r), Mul(g, ORDER, p))
  }

  function AllDropped<P(!new)>(g: Group<P>, claims: seq<Claim<P>>, n: nat): P
    requires n <= |claims|
  {
    if n == 0 then g.zero
    else
      var c := claims[n - 1];
      g.add(AllDropped(g, claims, n - 1), Dropped(g, c.negA, c.h, c.r))
  }

  lemma {:induction false} NothingDropped<P(!new)>(g: Group<P>, base: P, claims: seq<Claim<P>>, n: nat)
    requires Abelian(g) && InSubgroup(g, claims, base) && n <= |claims|
    ensures AllDropped(g, claims, n) == g.zero
  {
    hide Mul, Abelian;
    if n > 0 {
      NothingDropped(g, base, claims, n - 1);
      var c := claims[n - 1];
      MulBounds(c.h, c.r);
      MulZero(g, Quotient(c.h * c.r));
      Laws(g, g.zero, g.zero, g.zero);
    }
  }

  /** r * (h * P), with the product of the scalars reduced. */
  lemma ScaledKey<P(!new)>(g: Group<P>, p: P, h: nat, r: nat)
    requires Abelian(g)
    ensures Mul(g, r, Mul(g, h, p)) == g.add(Mul(g, TimesMod(h, r), p), Dropped(g, p, h, r))
  {
    hide Mul, ModOrder, Abelian, Quotient;
    MulBounds(h, r);
    var k := Quotient(h * r);
    MulMul(g, r, h, p);
    assert r * h == h * r == k * ORDER + TimesMod(h, r);
    MulMul(g, k, ORDER, p);
    MulAdd(g, k * ORDER, TimesMod(h, r), p);
    Laws(g, Mul(g, k * ORDER, p), Mul(g, TimesMod(h, r), p), p);
  }

  lemma ScaledOrder<P(!new)>(g: Group<P>, p: P, n: nat, r: nat)
    requires Abelian(g) && HasOrder(g, p)
    ensures Mul(g, TimesMod(n, r), p) == Mul(g, r, Mul(g, n, p))
  {
    hide Mul, ModOrder, Abelian;
    MulBounds(n, r);
    MulModOrder(g, p, n * r);
    MulMul(g, r, n, p);
    assert r * n == n * r;
  }

  /** Moving what is dropped to the end. */
  lemma DroppedLast<P(!new)>(g: Group<P>, x: P, t: P, u: P, v: P, d: P, w: P)
    requires Abelian(g)
    ensures g.add(g.add(x, t), g.add(g.add(u, g.add(v, d)), w)) == g.add(g.add(x, g.add(g.add(u, v), w)), g.add(t, d))
  {
    hide Abelian;
    Laws(g, u, v, d);
    Laws(g, g.add(u, v), d, w);
    Laws(g, d, w, w);
    Laws(g, g.add(u, v), w, d);
    Interchange(g, x, t, g.add(g.add(u, v), w), d);
  }

  /** One more claim on both sides. */
  lemma WeightedStep<P(!new)>(g: Group<P>, base: P, c: Claim<P>, f: nat, a: P, b: P, t: P)
    requires Abelian(g) && HasOrder(g, base)
    ensures g.add(g.add(g.add(g.add(Mul(g, f, base), a), b), t), Mul(g, c.r, Residual(g, base, c)))
         == g.add(g.add(g.add(Mul(g, ModOrder(f + TimesMod(c.s, c.r)), base),
                              g.add(a, Mul(g, TimesMod(c.h, c.r), c.negA))),
                        g.add(b, Mul(g, c.r, c.negR))), g.add(t, Dropped(g, c.negA, c.h, c.r)))
  {
    hide Mul, ModOrder, Abelian, Dropped;
    ScaledOrder(g, base, c.s, c.r);
    ScaledKey(g, c.negA, c.h, c.r);
    MulModOrder(g, base, f + TimesMod(c.s, c.r));
    MulAdd(g, f, TimesMod(c.s, c.r), base);
    var x, y, z := Mul(g, c.s, base), Mul(g, c.h, c.negA), c.negR;
    MulDistributes(g, c.r, g.add(x, y), z);
    MulDistributes(g, c.r, x, y);
    var u, v, w := Mul(g, c.r, x), Mul(g, TimesMod(c.h, c.r), c.negA), Mul(g, c.r, z);
    var first := Mul(g, f, base);
    DroppedLast(g, g.add(g.add(first, a), b), t, u, v, Dropped(g, c.negA, c.h, c.r), w);
    Interchange(g, g.add(first, a), b, g.add(u, v), w);
    Interchange(g, first, a, u, v);
  }

  lemma {:induction false} WeightedIsParts<P(!new)>(g: Group<P>, base: P, claims: seq<Claim<P>>, n: nat)
    requires Abelian(g) && HasOrder(g, base) && n <= |claims|
    ensures var parts := g.add(g.add(Mul(g, FirstScalar(claims, n), base), PartA(g, claims, n)), PartR(g, claims, n));
            Weighted(g, base, claims, n) == g.add(parts, AllDropped(g, claims, n))
  {
    hide Mul, Abelian, ModOrder, TimesMod, Residual, HasOrder, Dropped;
    if n == 0 {
      BX.ZeroTimes(g, base);
      Laws(g, g.zero, g.zero, g.zero);
    } else {
      WeightedIsParts(g, base, claims, n - 1);
      WeightedStep(g, base, claims[n - 1], FirstScalar(claims, n - 1), PartA(g, claims, n - 1), PartR(g, claims, n - 1),
                   AllDropped(g, claims, n - 1));
    }
  }

  /** The batch sum, together with what the reductions drop, is the weighted sum of the residuals. */
  lemma BatchSum<P(!new)>(g: Group<P>, base: P, claims: seq<Claim<P>>)
    requires Abelian(g) && HasOrder(g, base)
    ensures var sum := Msm(g, Scalars(claims), Points(base, claims), 2 * |claims| + 1);
            && g.add(sum, AllDropped(g, claims, |claims|)) == Weighted(g, base, claims, |claims|)
            && (InSubgroup(g, claims, base) ==> sum == Weighted(g, base, claims, |claims|))
  {
    hide Mul, ModOrder, Abelian, Msm, Weighted, PartA, PartR, InSubgroup, AllDropped, HasOrder;
    SumThroughR(g, base, claims, |claims|);
    WeightedIsParts(g, base, claims, |claims|);
    assert |claims| + 1 + |claims| == 2 * |claims| + 1;
    if InSubgroup(g, claims, base) {
      var sum := Msm(g, Scalars(claims), Points(base, claims), 2 * |claims| + 1);
      NothingDropped(g, base, claims, |claims|);
      Laws(g, sum, sum, sum);
    }
  }

  lemma {:induction false} WeightedZero<P(!new)>(g: Group<P>, base: P, claims: seq<Claim<P>>, n: nat)
    requires Abelian(g) && n <= |claims|
    requires forall i :: 0 <= i < n ==> Residual(g, base, claims[i]) == g.zero
    ensures Weighted(g, base, claims, n) == g.zero
  {
    if n > 0 {
      WeightedZero(g, base, claims, n - 1);
      MulZero(g, claims[n - 1].r);
      Laws(g, g.zero, g.zero, g.zero);
    }
  }

  /** What two multiples that vanish have in common vanishes. */
  lemma {:induction false} GcdKills<P(!new)>(g: Group<P>, a: nat, b: nat, q: P)
    requires Abelian(g) && Mul(g, a, q) == g.zero && Mul(g, b, q) == g.zero
    ensures Mul(g, Gcd(a, b), q) == g.zero
    decreases b
  {
    hide Mul, Abelian;
    if b != 0 {
      var k, c := a / b, a % b;
      MulMul(g, k, b, q);
      MulZero(g, k);
      assert a == k * b + c;
      MulAdd(g, k * b, c, q);
      Laws(g, g.zero, Mul(g, c, q), q);
      Laws(g, Mul(g, c, q), g.zero, q);
      GcdKills(g, b, c, q);
    }
  }

  /** A valid signature on points of the subgroup has R in the subgroup. */
  lemma NegRHasOrder<P(!new)>(g: Group<P>, base: P, c: Claim<P>)
    requires Abelian(g) && HasOrder(g, base) && HasOrder(g, c.negA) && Residual(g, base, c) == g.zero
    ensures HasOrder(g, c.negR)
  {
    hide Mul, Abelian;
    var x, y := Mul(g, c.s, base), Mul(g, c.h, c.negA);
    OrderKillsMultiple(g, base, c.s);
    OrderKillsMultiple(g, c.negA, c.h);
    MulDistributes(g, ORDER, x, y);
    MulDistributes(g, ORDER, g.add(x, y), c.negR);
    MulZero(g, ORDER);
    Laws(g, g.zero, g.zero, g.zero);
    Laws(g, g.zero, Mul(g, ORDER, c.negR), base);
    Laws(g, Mul(g, ORDER, c.negR), g.zero, base);
  }

  lemma OrderKillsMultiple<P(!new)>(g: Group<P>, p: P, n: nat)
    requires Abelian(g) && HasOrder(g, p)
    ensures Mul(g, ORDER, Mul(g, n, p)) == g.zero
  {
    hide Mul, Abelian;
    MulMul(g, ORDER, n, p);
    MulMul(g, n, ORDER, p);
    assert ORDER * n == n * ORDER;
    MulZero(g, n);
  }

  /** The scalars of a batch that its run reaches: all of them, or the rest is zero. */
  ghost predicate ReachesAll(s: seq<nat>, count: nat)
    requires SR.FirstSize(count) <= count <= |s|
  {
    BC.Extends(s, count) || forall i :: SR.FirstSize(count) <= i < count ==> s[i] == 0
  }

  /**
   * A batch of valid signatures that reaches all its terms, with a gcd that is zero or prime to the
   * group order: the final step stays in the scalar or not by the gcd alone, and if it does, the
   * run returns the neutral element, so the batch is accepted without falling back.
   */
  lemma ValidBatchIsNeutral<P(!new)>(g: Group<P>, base: P, claims: seq<Claim<P>>, ok: bool, r: P)
    requires Abelian(g) && InSubgroup(g, claims, base) && |claims| >= 4
    requires forall i :: 0 <= i < |claims| ==> Residual(g, base, claims[i]) == g.zero
    requires BC.Outcome(g, Scalars(claims), Points(base, claims), 2 * |claims| + 1, ok, r)
    requires ReachesAll(Scalars(claims), 2 * |claims| + 1)
    requires BatchGcd(claims) == 0 || Gcd(BatchGcd(claims), ORDER) == 1
    ensures ok <==> BatchGcd(claims) <= 1 || BatchGcd(claims) % BC.TWO_224 != 0
    ensures ok ==> r == g.zero
  {
    hide Mul, Abelian, Msm, Weighted, BC.Outcome, BC.NextPow2, GcdOf, Gcd, InSpan, BC.Extends, Points, Scalars,
         Residual, AllDropped;
    var s, p, count := Scalars(claims), Points(base, claims), 2 * |claims| + 1;
    var d, n := BatchGcd(claims), BC.Reached(s, count);
    var q := BX.SurvivingPoint(g, s, p, count, ok, r);
    BatchSum(g, base, claims);
    WeightedZero(g, base, claims, |claims|);
    if n < count { BX.MsmTailZero(g, s, p, n, count); }
    PointsHaveOrder(g, base, claims);
    SpanKilled(g, ORDER, p[..count], q);
    if d != 0 {
      GcdKills(g, d, ORDER, q);
      MulOne(g, q);
    }
    MulZero(g, d % BC.TWO_224 + BC.NextPow2(d % BC.TWO_224));
  }

  /** The gcd of the scalars that the run of a batch reaches. */
  ghost function BatchGcd<P>(claims: seq<Claim<P>>): nat
    requires |claims| >= 4
  {
    GcdOf(Scalars(claims), BC.Reached(Scalars(claims), 2 * |claims| + 1))
  }

  lemma PointsHaveOrder<P(!new)>(g: Group<P>, base: P, claims: seq<Claim<P>>)
    requires Abelian(g) && InSubgroup(g, claims, base)
    requires forall i :: 0 <= i < |claims| ==> Residual(g, base, claims[i]) == g.zero
    ensures forall i :: 0 <= i < |Points(base, claims)| ==> Mul(g, ORDER, Points(base, claims)[i]) == g.zero
  {
    hide Mul, Abelian, Residual;
    var p, k := Points(base, claims), |claims|;
    forall i | 0 <= i < |p| ensures Mul(g, ORDER, p[i]) == g.zero {
      if 1 <= i <= k {
        assert p[i] == claims[i - 1].negA;
      } else if i > k {
        EntryR(base, claims, i - k);
        NegRHasOrder(g, base, claims[i - k - 1]);
      }
    }
  }

  lemma BatchGcdBelowOrder<P>(claims: seq<Claim<P>>)
    requires |claims| >= 4 && forall i :: 0 <= i < |claims| ==> claims[i].r < SR.TWO_128
    ensures BatchGcd(claims) < ORDER
  {
    hide GcdOf, ModOrder, FirstScalar, TimesMod;
    var s, n := Scalars(claims), BC.Reached(Scalars(claims), 2 * |claims| + 1);
    if BatchGcd(claims) != 0 {
      var i := NonzeroEntry(s, n);
      GcdOfLe(s, n, i);
      ScalarBelowOrder(claims, i);
    }
  }

  /** Since the order is prime, the gcd of reduced scalars is zero or prime to it. */
  lemma BatchGcdIsCoprime<P>(claims: seq<Claim<P>>)
    requires Prime(ORDER) && |claims| >= 4 && forall i :: 0 <= i < |claims| ==> claims[i].r < SR.TWO_128
    ensures BatchGcd(claims) == 0 || Gcd(BatchGcd(claims), ORDER) == 1
  {
    hide Gcd, BatchGcd;
    BatchGcdBelowOrder(claims);
    if BatchGcd(claims) != 0 { CoprimeBelowPrime(BatchGcd(claims), ORDER); }
  }

  /** In the subgroup of prime order, only the neutral element is killed by a smaller multiple. */
  lemma KilledBySmall<P(!new)>(g: Group<P>, m: nat, q: P)
    requires Abelian(g) && Prime(ORDER) && 0 < m < ORDER && HasOrder(g, q)
    ensures Mul(g, m, q) == g.zero <==> q == g.zero
  {
    hide Mul, Abelian, Gcd;
    if Mul(g, m, q) == g.zero {
      CoprimeBelowPrime(m, ORDER);
      GcdKills(g, m, ORDER, q);
      MulOne(g, q);
    }
    MulZero(g, m);
  }

  /** There the final step, right or not, ends in the neutral element just when it should. */
  lemma FinalNeutralIff<P(!new)>(g: Group<P>, d: nat, q: P, r: P)
    requires Abelian(g) && Prime(ORDER) && d < ORDER && HasOrder(g, q) && BC.FinalValue(g, d, q, true, r)
    ensures r == g.zero <==> Mul(g, d, q) == g.zero
  {
    hide Mul, Abelian, BC.NextPow2, HasOrder;
    if d > 1 {
      var e := d % BC.TWO_224;
      BX.NextPow2Bounds(e);
      KilledBySmall(g, d, q);
      KilledBySmall(g, e + BC.NextPow2(e), q);
    }
  }

  /**
   * For all claims on points of the subgroup, valid or not, and whether all terms are reached or
   * not: when the final step stays in the scalar, the batch is accepted just when the sum of the
   * terms reached is the neutral element, even where the final step is wrong.
   */
  lemma BatchAcceptedIff<P(!new)>(g: Group<P>, base: P, claims: seq<Claim<P>>, ok: bool, r: P)
    requires Abelian(g) && Prime(ORDER) && |claims| >= 4
    requires forall i :: 0 <= i < |claims| ==> claims[i].r < SR.TWO_128
    requires forall i :: 0 <= i < |Points(base, claims)| ==> HasOrder(g, Points(base, claims)[i])
    requires BC.Outcome(g, Scalars(claims), Points(base, claims), 2 * |claims| + 1, ok, r)
    ensures ok <==> BatchGcd(claims) <= 1 || BatchGcd(claims) % BC.TWO_224 != 0
    ensures var n := BC.Reached(Scalars(claims), 2 * |claims| + 1);
            ok ==> (r == g.zero <==> Msm(g, Scalars(claims), Points(base, claims), n) == g.zero)
  {
    hide Mul, Abelian, Msm, BC.Outcome, BC.NextPow2, GcdOf, InSpan, BC.Extends, Points, Scalars;
    var s, p, count := Scalars(claims), Points(base, claims), 2 * |claims| + 1;
    var q := BX.SurvivingPoint(g, s, p, count, ok, r);
    BatchGcdBelowOrder(claims);
    SpanKilled(g, ORDER, p[..count], q);
    if ok { FinalNeutralIff(g, BatchGcd(claims), q, r); }
  }

  /**
   * For all claims on any keys: on exact scalars the batch is accepted just when the weighted
   * residuals sum to what the reductions dropped. So a valid batch is accepted just when they
   * dropped nothing.
   */
  lemma ExactBatchAcceptedIff<P(!new)>(g: Group<P>, base: P, claims: seq<Claim<P>>, ok: bool, r: P)
    requires Abelian(g) && HasOrder(g, base) && |claims| >= 4
    requires BX.Exact(Scalars(claims), 2 * |claims| + 1)
    requires BC.Returns(g, Scalars(claims), Points(base, claims), 2 * |claims| + 1, ok, r)
    ensures ok && (r == g.zero <==> Weighted(g, base, claims, |claims|) == AllDropped(g, claims, |claims|))
    ensures (forall i :: 0 <= i < |claims| ==> Residual(g, base, claims[i]) == g.zero) ==>
              (r == g.zero <==> AllDropped(g, claims, |claims|) == g.zero)
  {
    hide Mul, Abelian, Msm, Weighted, BC.Returns, BX.Exact, Points, Scalars, Residual, AllDropped, HasOrder, InSubgroup;
    var dropped := AllDropped(g, claims, |claims|);
    BX.ExactIsSufficient(g, Scalars(claims), Points(base, claims), 2 * |claims| + 1, ok, r);
    BatchSum(g, base, claims);
    Laws(g, g.zero, dropped, dropped);
    Laws(g, dropped, g.zero, dropped);
    Laws(g, r, dropped, dropped);
    if g.add(r, dropped) == dropped { BX.CancelSum(g, dropped, r); }
    if forall i :: 0 <= i < |claims| ==> Residual(g, base, claims[i]) == g.zero {
      WeightedZero(g, base, claims, |claims|);
    }
  }

  lemma {:induction false} NonzeroEntry(s: seq<nat>, n: nat) returns (i: nat)
    requires n <= |s| && GcdOf(s, n) != 0
    ensures i < n && s[i] > 0
  {
    i := n - 1;
    if s[n - 1] == 0 { i := NonzeroEntry(s, n - 1); }
  }

  lemma ScalarBelowOrder<P>(claims: seq<Claim<P>>, i: nat)
    requires i <= 2 * |claims| && forall k :: 0 <= k < |claims| ==> claims[k].r < SR.TWO_128
    ensures Scalars(claims)[i] < ORDER
  {
    hide ModOrder;
    var n := |claims|;
    if i == 0 && n > 0 {
      assert FirstScalar(claims, n) == ModOrder(FirstScalar(claims, n - 1) + TimesMod(claims[n - 1].s, claims[n - 1].r));
    }
  }
}
