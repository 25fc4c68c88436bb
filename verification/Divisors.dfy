/** Divisibility and the greatest common divisor of a sequence of naturals. */
module Divisors {
  import opened Words

  ghost predicate Divides(d: nat, n: nat) { exists k: nat :: n == d * k }

  /** d divides each of the first n entries. */
  ghost predicate DividesAll(d: nat, s: seq<nat>, n: nat)
    requires n <= |s|
  {
    forall i :: 0 <= i < n ==> Divides(d, s[i])
  }

  function Gcd(a: nat, b: nat): nat
    decreases b
  {
    if b == 0 then a else Gcd(b, a % b)
  }

  /** The gcd of the first n entries; 0 when they are all 0. */
  function GcdOf(s: seq<nat>, n: nat): nat
    requires n <= |s|
  {
    if n == 0 then 0 else Gcd(GcdOf(s, n - 1), s[n - 1])
  }

  lemma {:induction false} GcdOfPrefix(s: seq<nat>, t: seq<nat>, n: nat)
    requires n <= |s| && n <= |t| && forall i :: 0 <= i < n ==> s[i] == t[i]
    ensures GcdOf(s, n) == GcdOf(t, n)
  {
    if n > 0 { GcdOfPrefix(s, t, n - 1); }
  }

  lemma DividesSum(d: nat, a: nat, b: nat)
    requires Divides(d, a) && Divides(d, b)
    ensures Divides(d, a + b)
  {
    var j: nat :| a == d * j;
    var k: nat :| b == d * k;
    assert a + b == d * (j + k);
  }

  lemma DividesDifference(d: nat, a: nat, b: nat)
    requires Divides(d, a) && Divides(d, b) && b <= a
    ensures Divides(d, a - b)
  {
    var j: nat :| a == d * j;
    var k: nat :| b == d * k;
    if d == 0 {
      assert a - b == d * 0;
    } else {
      var e := j as int - k as int;
      assert e * d == a - b;
      MulBounds(e, d);
      assert a - b == d * (j - k);
    }
  }

  lemma DividesMultiple(d: nat, a: nat, m: nat)
    requires Divides(d, a)
    ensures Divides(d, m * a)
  {
    var k: nat :| a == d * k;
    assert m * a == d * (m * k);
  }

  lemma DividesRefl(a: nat)
    ensures Divides(a, a) && Divides(a, 0)
  {
    assert a == a * 1;
    assert 0 == a * 0;
  }

  /** Mutual divisibility is equality. */
  lemma DividesAntisymmetric(a: nat, b: nat)
    requires Divides(a, b) && Divides(b, a)
    ensures a == b
  {
    if b > 0 { DividesLe(a, b); }
    if a > 0 { DividesLe(b, a); }
  }

  lemma DividesLe(d: nat, a: nat)
    requires Divides(d, a) && a > 0
    ensures 0 < d <= a
  {
    var k: nat :| a == d * k;
    assert k >= 1;
    assert d * k >= d;
  }

  /** The defining property: the common divisors of a and b are the divisors of Gcd(a, b). */
  lemma {:induction false} GcdDivisors(d: nat, a: nat, b: nat)
    ensures Divides(d, Gcd(a, b)) <==> Divides(d, a) && Divides(d, b)
    decreases b
  {
    if b == 0 {
      DividesRefl(d);
    } else {
      GcdDivisors(d, b, a % b);
      var q := a / b;
      assert a == q * b + a % b;
      if Divides(d, b) {
        DividesMultiple(d, b, q);
        if Divides(d, a % b) { DividesSum(d, q * b, a % b); }
        if Divides(d, a) { DividesDifference(d, a, q * b); }
      }
    }
  }

  lemma {:induction false} GcdOfDivisors(d: nat, s: seq<nat>, n: nat)
    requires n <= |s|
    ensures Divides(d, GcdOf(s, n)) <==> DividesAll(d, s, n)
  {
    if n == 0 {
      DividesRefl(d);
    } else {
      GcdDivisors(d, GcdOf(s, n - 1), s[n - 1]);
      GcdOfDivisors(d, s, n - 1);
    }
  }

  /** The gcd is fixed by its set of divisors. */
  lemma GcdOfUnique(s: seq<nat>, n: nat, t: seq<nat>)
    requires n <= |s| && n <= |t|
    requires forall d: nat :: DividesAll(d, s, n) <==> DividesAll(d, t, n)
    ensures GcdOf(s, n) == GcdOf(t, n)
  {
    var a, b := GcdOf(s, n), GcdOf(t, n);
    DividesRefl(a);
    DividesRefl(b);
    GcdOfDivisors(a, s, n);
    GcdOfDivisors(b, t, n);
    GcdOfDivisors(a, t, n);
    GcdOfDivisors(b, s, n);
    DividesAntisymmetric(a, b);
  }

  /** Subtracting one entry from another keeps the gcd: one step of subtractive Euclid. */
  lemma GcdOfSubtract(s: seq<nat>, n: nat, i: nat, j: nat)
    requires i < n <= |s| && j < n && i != j && s[j] <= s[i]
    ensures GcdOf(s[i := s[i] - s[j]], n) == GcdOf(s, n)
  {
    var t := s[i := s[i] - s[j]];
    forall d: nat
      ensures DividesAll(d, s, n) <==> DividesAll(d, t, n)
    {
      if DividesAll(d, s, n) {
        assert Divides(d, s[i]) && Divides(d, s[j]);
        DividesDifference(d, s[i], s[j]);
      }
      if DividesAll(d, t, n) {
        assert Divides(d, t[i]) && Divides(d, t[j]);
        DividesSum(d, t[i], t[j]);
        forall k | 0 <= k < n ensures Divides(d, s[k]) { assert Divides(d, t[k]); }
      }
    }
    GcdOfUnique(s, n, t);
  }

  /** A lone nonzero entry is the gcd. */
  lemma GcdOfSingle(s: seq<nat>, n: nat, i: nat)
    requires i < n <= |s|
    requires forall k :: 0 <= k < n && k != i ==> s[k] == 0
    ensures GcdOf(s, n) == s[i]
  {
    var a := GcdOf(s, n);
    DividesRefl(a);
    GcdOfDivisors(a, s, n);
    DividesRefl(s[i]);
    assert DividesAll(s[i], s, n);
    GcdOfDivisors(s[i], s, n);
    DividesAntisymmetric(a, s[i]);
  }

  /** The gcd does not exceed any nonzero entry. */
  lemma GcdOfLe(s: seq<nat>, n: nat, i: nat)
    requires i < n <= |s| && s[i] > 0
    ensures 0 < GcdOf(s, n) <= s[i]
  {
    var a := GcdOf(s, n);
    DividesRefl(a);
    GcdOfDivisors(a, s, n);
    DividesLe(a, s[i]);
  }

  ghost predicate Prime(m: nat) {
    m > 1 && forall d: nat :: Divides(d, m) ==> d == 1 || d == m
  }

  lemma CoprimeBelowPrime(d: nat, m: nat)
    requires Prime(m) && 0 < d < m
    ensures Gcd(d, m) == 1
  {
    var a := Gcd(d, m);
    DividesRefl(a);
    GcdDivisors(a, d, m);
    DividesLe(a, d);
  }
}
