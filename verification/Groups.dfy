/**
 * Abelian groups, integer multiples and multi-scalar sums.
 *
 * Curve points enter this project only through their group structure: every scalar
 * multiplication is proved for an arbitrary abelian group, of which the curve is one.
 */
module Groups {

  datatype Group<!P(!new)> = Group(zero: P, add: (P, P) -> P, neg: P -> P)

  /** Marks the triples at which the group laws are wanted, so that the solver does not rewrite forever. */
  ghost predicate At<P>(x: P, y: P, z: P) { true }

  ghost predicate Abelian<P(!new)>(g: Group<P>) {
    forall x, y, z {:trigger At(x, y, z)} :: At(x, y, z) ==>
      && g.add(g.add(x, y), z) == g.add(x, g.add(y, z))
      && g.add(x, y) == g.add(y, x)
      && g.add(x, g.zero) == x
      && g.add(x, g.neg(x)) == g.zero
  }

  lemma Laws<P(!new)>(g: Group<P>, x: P, y: P, z: P)
    requires Abelian(g)
    ensures g.add(g.add(x, y), z) == g.add(x, g.add(y, z))
    ensures g.add(x, y) == g.add(y, x)
    ensures g.add(x, g.zero) == x
    ensures g.add(x, g.neg(x)) == g.zero
  {
    assert At(x, y, z);
  }

  /** (a + b) + (c + d) == (a + c) + (b + d) */
  lemma Interchange<P(!new)>(g: Group<P>, a: P, b: P, c: P, d: P)
    requires Abelian(g)
    ensures g.add(g.add(a, b), g.add(c, d)) == g.add(g.add(a, c), g.add(b, d))
  {
    Laws(g, a, b, g.add(c, d));
    Laws(g, b, c, d);
    Laws(g, c, b, d);
    Laws(g, a, c, g.add(b, d));
  }

  lemma Cancel<P(!new)>(g: Group<P>, x: P, y: P)
    requires Abelian(g) && g.add(x, y) == g.zero
    ensures y == g.neg(x)
  {
    Laws(g, g.neg(x), x, y);
    Laws(g, g.neg(x), g.zero, x);
    Laws(g, x, g.neg(x), x);
    Laws(g, y, g.zero, x);
    Laws(g, g.zero, y, x);
  }

  /** The n-th multiple of p, for every integer n. */
  function Mul<P(!new)>(g: Group<P>, n: int, p: P): P
    decreases if n < 0 then -n else n
  {
    if n == 0 then g.zero
    else if n > 0 then g.add(Mul(g, n - 1, p), p)
    else g.add(Mul(g, n + 1, p), g.neg(p))
  }

  lemma {:induction false} MulSucc<P(!new)>(g: Group<P>, n: int, p: P)
    requires Abelian(g)
    ensures Mul(g, n + 1, p) == g.add(Mul(g, n, p), p)
  {
    if n < 0 {
      var q := Mul(g, n + 1, p);
      Laws(g, q, g.neg(p), p);
      Laws(g, g.neg(p), p, p);
      Laws(g, p, g.neg(p), p);
      Laws(g, q, g.zero, p);
    }
  }

  lemma {:induction false} MulAdd<P(!new)>(g: Group<P>, m: int, n: int, p: P)
    requires Abelian(g)
    ensures Mul(g, m + n, p) == g.add(Mul(g, m, p), Mul(g, n, p))
    decreases if n < 0 then -n else n
  {
    if n == 0 {
      Laws(g, Mul(g, m, p), p, p);
    } else if n > 0 {
      MulAdd(g, m, n - 1, p);
      MulSucc(g, m + n - 1, p);
      Laws(g, Mul(g, m, p), Mul(g, n - 1, p), p);
    } else {
      MulAdd(g, m, n + 1, p);
      MulSucc(g, m + n, p);
      var q := Mul(g, m + n, p);
      Laws(g, q, p, g.neg(p));
      Laws(g, p, p, p);
      Laws(g, q, p, p);
      Laws(g, Mul(g, m, p), Mul(g, n + 1, p), g.neg(p));
    }
  }

  lemma MulNeg<P(!new)>(g: Group<P>, n: int, p: P)
    requires Abelian(g)
    ensures Mul(g, -n, p) == g.neg(Mul(g, n, p))
  {
    MulAdd(g, n, -n, p);
    Cancel(g, Mul(g, n, p), Mul(g, -n, p));
  }

  lemma MulOne<P(!new)>(g: Group<P>, p: P)
    requires Abelian(g)
    ensures Mul(g, 1, p) == p && Mul(g, 0, p) == g.zero && Mul(g, 2, p) == g.add(p, p)
  {
    Laws(g, g.zero, p, p);
    Laws(g, p, g.zero, p);
    MulSucc(g, 1, p);
    MulSucc(g, 0, p);
  }

  lemma {:induction false} MulZero<P(!new)>(g: Group<P>, n: nat)
    requires Abelian(g)
    ensures Mul(g, n, g.zero) == g.zero
  {
    if n > 0 {
      MulZero(g, n - 1);
      Laws(g, g.zero, g.zero, g.zero);
    }
  }

  lemma {:induction false} MulDistributes<P(!new)>(g: Group<P>, n: nat, p: P, q: P)
    requires Abelian(g)
    ensures Mul(g, n, g.add(p, q)) == g.add(Mul(g, n, p), Mul(g, n, q))
  {
    if n == 0 {
      Laws(g, g.zero, g.zero, g.zero);
    } else {
      MulDistributes(g, n - 1, p, q);
      Interchange(g, Mul(g, n - 1, p), Mul(g, n - 1, q), p, q);
    }
  }

  lemma {:induction false} MulMul<P(!new)>(g: Group<P>, m: nat, n: int, p: P)
    requires Abelian(g)
    ensures Mul(g, m, Mul(g, n, p)) == Mul(g, m * n, p)
  {
    if m > 0 {
      MulMul(g, m - 1, n, p);
      MulAdd(g, (m - 1) * n, n, p);
      assert (m - 1) * n + n == m * n;
    }
  }

  /** The multi-scalar sum of the first n terms: s[0]*p[0] + ... + s[n-1]*p[n-1]. */
  function Msm<P(!new)>(g: Group<P>, s: seq<nat>, p: seq<P>, n: nat): P
    requires n <= |s| && n <= |p|
  {
    if n == 0 then g.zero else g.add(Msm(g, s, p, n - 1), Mul(g, s[n - 1], p[n - 1]))
  }

  /** Only the first n entries matter. */
  lemma {:induction false} MsmPrefix<P(!new)>(g: Group<P>, s: seq<nat>, p: seq<P>, s': seq<nat>, p': seq<P>, n: nat)
    requires n <= |s| && n <= |p| && n <= |s'| && n <= |p'|
    requires forall i :: 0 <= i < n ==> s[i] == s'[i] && p[i] == p'[i]
    ensures Msm(g, s, p, n) == Msm(g, s', p', n)
  {
    if n > 0 { MsmPrefix(g, s, p, s', p', n - 1); }
  }

  /** Changing entry i changes the sum by the change of its term. */
  lemma {:induction false} MsmUpdate<P(!new)>(g: Group<P>, s: seq<nat>, p: seq<P>, i: nat, x: nat, q: P, d: P, n: nat)
    requires Abelian(g) && i < n <= |s| && n <= |p|
    requires Mul(g, x, q) == g.add(Mul(g, s[i], p[i]), d)
    ensures Msm(g, s[i := x], p[i := q], n) == g.add(Msm(g, s, p, n), d)
  {
    var s', p' := s[i := x], p[i := q];
    var rest, term := Msm(g, s, p, n - 1), Mul(g, s[n - 1], p[n - 1]);
    if i == n - 1 {
      MsmPrefix(g, s, p, s', p', n - 1);
      Laws(g, rest, term, d);
    } else {
      MsmUpdate(g, s, p, i, x, q, d, n - 1);
      Laws(g, rest, d, term);
      Laws(g, d, term, d);
      Laws(g, rest, term, d);
    }
  }

  /** If only entry i has a nonzero scalar, the sum is its term. */
  lemma {:induction false} MsmSingle<P(!new)>(g: Group<P>, s: seq<nat>, p: seq<P>, i: nat, n: nat)
    requires Abelian(g) && n <= |s| && n <= |p| && i < |s| && i < |p|
    requires forall k :: 0 <= k < n && k != i ==> s[k] == 0
    ensures Msm(g, s, p, n) == if i < n then Mul(g, s[i], p[i]) else g.zero
  {
    if n > 0 {
      MsmSingle(g, s, p, i, n - 1);
      if i == n - 1 {
        Laws(g, g.zero, Mul(g, s[i], p[i]), g.zero);
        Laws(g, Mul(g, s[i], p[i]), g.zero, g.zero);
      } else {
        Laws(g, Msm(g, s, p, n - 1), g.zero, g.zero);
      }
    }
  }

  /** q is a sum of multiples of the points p. */
  ghost predicate InSpan<P(!new)>(g: Group<P>, p: seq<P>, q: P) {
    exists c: seq<nat> :: |c| == |p| && q == Msm(g, c, p, |p|)
  }

  function SumOfSeqs(c: seq<nat>, d: seq<nat>): seq<nat>
    requires |c| == |d|
  {
    seq(|c|, i requires 0 <= i < |c| => c[i] + d[i])
  }

  lemma {:induction false} MsmSum<P(!new)>(g: Group<P>, c: seq<nat>, d: seq<nat>, p: seq<P>, n: nat)
    requires Abelian(g) && n <= |c| == |d| == |p|
    ensures Msm(g, SumOfSeqs(c, d), p, n) == g.add(Msm(g, c, p, n), Msm(g, d, p, n))
  {
    if n == 0 {
      Laws(g, g.zero, g.zero, g.zero);
    } else {
      MsmSum(g, c, d, p, n - 1);
      MulAdd(g, c[n - 1], d[n - 1], p[n - 1]);
      Interchange(g, Msm(g, c, p, n - 1), Msm(g, d, p, n - 1), Mul(g, c[n - 1], p[n - 1]), Mul(g, d[n - 1], p[n - 1]));
    }
  }

  lemma SpanAdd<P(!new)>(g: Group<P>, p: seq<P>, q: P, r: P)
    requires Abelian(g) && InSpan(g, p, q) && InSpan(g, p, r)
    ensures InSpan(g, p, g.add(q, r))
  {
    hide Msm, Abelian;
    var c: seq<nat> :| |c| == |p| && q == Msm(g, c, p, |p|);
    var d: seq<nat> :| |d| == |p| && r == Msm(g, d, p, |p|);
    MsmSum(g, c, d, p, |p|);
    assert |SumOfSeqs(c, d)| == |p|;
  }

  lemma SpanPoint<P(!new)>(g: Group<P>, p: seq<P>, i: nat)
    requires Abelian(g) && i < |p|
    ensures InSpan(g, p, p[i])
  {
    hide Msm, Abelian;
    var c: seq<nat> := seq(|p|, k => if k == i then 1 else 0);
    MsmSingle(g, c, p, i, |p|);
    MulOne(g, p[i]);
  }

  /** What kills all points kills their combinations. */
  lemma {:induction false} MulMsm<P(!new)>(g: Group<P>, m: nat, c: seq<nat>, p: seq<P>, n: nat)
    requires Abelian(g) && n <= |c| == |p| && forall i :: 0 <= i < n ==> Mul(g, m, p[i]) == g.zero
    ensures Mul(g, m, Msm(g, c, p, n)) == g.zero
  {
    if n == 0 {
      MulZero(g, m);
    } else {
      var x, y := Msm(g, c, p, n - 1), Mul(g, c[n - 1], p[n - 1]);
      MulMsm(g, m, c, p, n - 1);
      MulDistributes(g, m, x, y);
      MulMul(g, m, c[n - 1], p[n - 1]);
      MulMul(g, c[n - 1], m, p[n - 1]);
      assert m * c[n - 1] == c[n - 1] * m;
      MulZero(g, c[n - 1]);
      Laws(g, g.zero, g.zero, g.zero);
    }
  }

  lemma SpanKilled<P(!new)>(g: Group<P>, m: nat, p: seq<P>, q: P)
    requires Abelian(g) && InSpan(g, p, q) && forall i :: 0 <= i < |p| ==> Mul(g, m, p[i]) == g.zero
    ensures Mul(g, m, q) == g.zero
  {
    hide Msm, Abelian, Mul;
    var c: seq<nat> :| |c| == |p| && q == Msm(g, c, p, |p|);
    MulMsm(g, m, c, p, |p|);
  }

  /** The integers under addition, as a group to test statements in. */
  const Integers: Group<int> := Group(0, (x: int, y: int) => x + y, (x: int) => -x)

  lemma {:induction false} MulInIntegers(n: int, p: int)
    ensures Mul(Integers, n, p) == n * p
    decreases if n < 0 then -n else n
  {
    if n > 0 {
      MulInIntegers(n - 1, p);
      assert (n - 1) * p + p == n * p;
    } else if n < 0 {
      MulInIntegers(n + 1, p);
      assert (n + 1) * p + (-p) == n * p;
    }
  }
}
