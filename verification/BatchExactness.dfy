/**
 * When the multi-scalar multiplication of batch verification returns the full sum: an exact
 * condition on the scalars, which a caller can evaluate before the call.
 */
module BatchExactness {
  import opened Words
  import opened Groups
  import opened Divisors
  import opened BatchHeap
  import opened ScalarRun
  import opened BosCarter

  const TWO_223: nat := 0x8000_0000_0000_0000_0000_0000_0000_0000_0000_0000_0000_0000_0000_0000
  const TWO_225: nat := 0x2_0000_0000_0000_0000_0000_0000_0000_0000_0000_0000_0000_0000_0000_0000

  /**
   * The surviving scalars for which the final exponentiation is right. Above 1 it is right only
   * when the doubled leading bit of limbs 0..3 happens to stand for the unseen limb 4.
   */
  predicate FinalExact(d: nat) { d <= 1 || 3 * TWO_223 <= d < TWO_225 }

  /**
   * The scalars for which the run returns the sum of all `count` terms: the final step is right,
   * all terms are reached, and an index that stays idle has nothing to add.
   */
  ghost predicate Exact(s: seq<nat>, count: nat)
    requires FirstSize(count) <= count <= |s|
  {
    && FinalExact(GcdOf(s, Reached(s, count)))
    && (Extends(s, count) || forall i :: FirstSize(count) <= i < count ==> s[i] == 0)
    && (LeavesIdle(s, count) ==> IdleScalar(s, count) == 0)
  }

  /** Whether the run leaves an index idle. */
  ghost predicate LeavesIdle(s: seq<nat>, count: nat)
    requires FirstSize(count) <= count <= |s|
  {
    count % 2 == 0 && Extends(s, count)
  }

  lemma {:induction false} NextPow2Bounds(n: nat)
    ensures n < NextPow2(n) && (n > 0 ==> NextPow2(n) <= 2 * n)
  {
    if n > 0 { NextPow2Bounds(n / 2); }
  }

  lemma {:induction false} NextPow2Between(n: nat, k: nat)
    requires Pow2(k) <= n < Pow2(k + 1)
    ensures NextPow2(n) == Pow2(k + 1)
  {
    if k == 0 {
      assert Pow2(1) == 2 && Pow2(0) == 1;
      assert NextPow2(1) == 2 * NextPow2(0);
    } else {
      NextPow2Between(n / 2, k - 1);
    }
  }

  lemma Pow2Of223()
    ensures Pow2(223) == TWO_223 && Pow2(224) == TWO_224
  {
    Pow2Of56();
    Pow2Sum(56, 56);
    Pow2Sum(112, 56);
    Pow2Sum(168, 56);
    assert Pow2(224) == 2 * Pow2(223);
  }

  /** FinalExact is exactly the condition under which the final multiple is d. */
  lemma FinalExactIff(d: nat)
    requires d > 1
    ensures var e := d % TWO_224; FinalExact(d) <==> e != 0 && e + NextPow2(e) == d
  {
    var e := d % TWO_224;
    NextPow2Bounds(e);
    if e >= TWO_223 {
      Pow2Of223();
      NextPow2Between(e, 223);
    }
  }

  lemma FinalIsRight<P(!new)>(g: Group<P>, d: nat, q: P, ok: bool, r: P)
    requires FinalExact(d) && FinalValue(g, d, q, ok, r)
    ensures ok && r == Mul(g, d, q)
  {
    hide Mul, NextPow2;
    if d > 1 { FinalExactIff(d); }
  }

  /** An idle index with scalar zero makes no difference. */
  lemma IdleZero<P(!new)>(g: Group<P>, s: seq<nat>, p: seq<P>, count: nat, ok: bool, r: P)
    requires FirstSize(count) <= count <= |s| && |s| == |p|
    requires Returns(g, s, p, count, ok, r) && (LeavesIdle(s, count) ==> IdleScalar(s, count) == 0)
    ensures Outcome(g, s, p, count, ok, r)
  {
    hide Mul, Msm, GcdOf, Extends, InSpan, FinalValue, FirstPart, LastIndex;
    if LeavesIdle(s, count) {
      var x := SnapshotOf(g, s, p, count);
      assert Zeroed(x.s, x.idle) == x.s;
    }
  }

  /** In every abelian group, and for all points: on exact scalars a run returns the full sum. */
  lemma ExactIsSufficient<P(!new)>(g: Group<P>, s: seq<nat>, p: seq<P>, count: nat, ok: bool, r: P)
    requires Abelian(g) && FirstSize(count) <= count <= |s| && |s| == |p|
    requires Exact(s, count) && Returns(g, s, p, count, ok, r)
    ensures ok && r == Msm(g, s, p, count)
  {
    hide Mul, Msm, GcdOf, Extends, Abelian, Returns, IdleScalar, Outcome, FinalValue, InSpan;
    var n := Reached(s, count);
    IdleZero(g, s, p, count, ok, r);
    var q := SurvivingPoint(g, s, p, count, ok, r);
    FinalIsRight(g, GcdOf(s, n), q, ok, r);
    if n < count { MsmTailZero(g, s, p, n, count); }
  }

  lemma {:induction false} MsmTailZero<P(!new)>(g: Group<P>, s: seq<nat>, p: seq<P>, m: nat, n: nat)
    requires Abelian(g) && m <= n <= |s| && |s| == |p|
    requires forall i :: m <= i < n ==> s[i] == 0
    ensures Msm(g, s, p, n) == Msm(g, s, p, m)
  {
    if m < n {
      MsmTailZero(g, s, p, m, n - 1);
      Laws(g, Msm(g, s, p, n - 1), g.zero, g.zero);
    }
  }

  /** In the integers, ones at the first k places pick the sum of the first k scalars. */
  function Ones(k: nat, n: nat): (p: seq<int>)
    ensures |p| == n
  {
    seq(n, i => if i < k then 1 else 0)
  }

  lemma {:induction false} MsmOnes(s: seq<nat>, k: nat, n: nat)
    requires n <= |s|
    ensures Msm(Integers, s, Ones(k, |s|), n) == SumOf(s, if n <= k then n else k)
  {
    if n > 0 {
      MsmOnes(s, k, n - 1);
      MulInIntegers(s[n - 1], Ones(k, |s|)[n - 1]);
    }
  }

  lemma {:induction false} SumOfZero(s: seq<nat>, n: nat)
    requires n <= |s| && SumOf(s, n) == 0
    ensures GcdOf(s, n) == 0
  {
    if n > 0 { SumOfZero(s, n - 1); }
  }

  lemma {:induction false} SumOfGrows(s: seq<nat>, m: nat, n: nat)
    requires m <= n <= |s|
    ensures SumOf(s, m) <= SumOf(s, n)
    ensures SumOf(s, m) == SumOf(s, n) ==> forall i :: m <= i < n ==> s[i] == 0
  {
    if m < n { SumOfGrows(s, m, n - 1); }
  }

  lemma GcdOfPrefixLe(s: seq<nat>, m: nat, n: nat)
    requires m <= n <= |s| && GcdOf(s, m) > 0
    ensures GcdOf(s, n) <= GcdOf(s, m)
  {
    var d := GcdOf(s, n);
    DividesRefl(d);
    GcdOfDivisors(d, s, n);
    GcdOfDivisors(d, s, m);
    DividesLe(d, GcdOf(s, m));
  }

  lemma SurvivingPoint<P(!new)>(g: Group<P>, s: seq<nat>, p: seq<P>, count: nat, ok: bool, r: P) returns (q: P)
    requires FirstSize(count) <= count <= |s| && |s| == |p| && Outcome(g, s, p, count, ok, r)
    ensures var d := GcdOf(s, Reached(s, count));
            && InSpan(g, p[..count], q) && Mul(g, d, q) == Msm(g, s, p, Reached(s, count)) && FinalValue(g, d, q, ok, r)
  {
    hide Msm, Mul, GcdOf, Extends, InSpan, FinalValue;
    var n := Reached(s, count);
    q :| InSpan(g, p[..count], q) && Mul(g, GcdOf(s, n), q) == Msm(g, s, p, n) && FinalValue(g, GcdOf(s, n), q, ok, r);
  }

  /** Reading any outcome in the integers: the sum reached is d*q, and r is known from d and q. */
  lemma IntegerOutcome(s: seq<nat>, p: seq<int>, count: nat, ok: bool, r: int) returns (q: int)
    requires FirstSize(count) <= count <= |s| && |s| == |p| && Outcome(Integers, s, p, count, ok, r)
    ensures var n := Reached(s, count);
            var d := GcdOf(s, n);
            var e := d % TWO_224;
            && d * q == Msm(Integers, s, p, n)
            && (if d <= 1 then ok && r == d * q else (ok <==> e != 0) && (ok ==> r == (e + NextPow2(e)) * q))
  {
    hide Msm, GcdOf, Extends, NextPow2, InSpan;
    var n := Reached(s, count);
    var d := GcdOf(s, n);
    q := SurvivingPoint(Integers, s, p, count, ok, r);
    MulInIntegers(d, q);
    MulInIntegers(d % TWO_224 + NextPow2(d % TWO_224), q);
  }

  /** Points that show an inexact run to be wrong; all 0 or 1 unless it is an idle term that is missing. */
  ghost function Witness(s: seq<nat>, count: nat): (p: seq<int>)
    requires FirstSize(count) <= count <= |s|
    ensures |p| == |s|
    ensures !LeavesIdle(s, count) || IdleScalar(s, count) == 0 ==> forall i :: 0 <= i < |p| ==> p[i] == 0 || p[i] == 1
  {
    if LeavesIdle(s, count) && IdleScalar(s, count) > 0 then IdleWitness(s, count) else OnesWitness(s, count)
  }

  /** Only the point at index i is 1. */
  function UnitAt(i: nat, n: nat): (p: seq<int>)
    ensures |p| == n
  {
    seq(n, k => if k == i then 1 else 0)
  }

  /** Points of which only that of the idle index is left when the 128-bit scalars join. */
  function IdleWitness(s: seq<nat>, count: nat): (p: seq<int>)
    requires FirstSize(count) <= count <= |s|
    ensures |p| == |s|
  {
    Unapply(Integers, FirstPart(s, count).pairs, UnitAt(LastIndex(s, count), |s|))
  }

  lemma SurvivingIdle<P(!new)>(g: Group<P>, s: seq<nat>, p: seq<P>, count: nat, ok: bool, r: P) returns (q: P)
    requires FirstSize(count) <= count <= |s| && |s| == |p| && IdleOutcome(g, s, p, count, ok, r)
    ensures var x := SnapshotOf(g, s, p, count);
            var rest := Zeroed(x.s, x.idle);
            && Snapped(g, s, p, count) && x.idle < count && InSpan(g, p[..count], q)
            && Mul(g, GcdOf(rest, count), q) == Msm(g, rest, x.p, count) && FinalValue(g, GcdOf(rest, count), q, ok, r)
  {
    hide Msm, Mul, GcdOf, InSpan, FinalValue, Zeroed, Snapped, SnapshotOf;
    var x := SnapshotOf(g, s, p, count);
    var rest := Zeroed(x.s, x.idle);
    q :| InSpan(g, p[..count], q) && Mul(g, GcdOf(rest, count), q) == Msm(g, rest, x.p, count)
         && FinalValue(g, GcdOf(rest, count), q, ok, r);
  }

  lemma {:induction false} MsmTermsZero(s: seq<nat>, p: seq<int>, n: nat)
    requires n <= |s| == |p| && forall i :: 0 <= i < n ==> s[i] == 0 || p[i] == 0
    ensures Msm(Integers, s, p, n) == 0
  {
    if n > 0 {
      MsmTermsZero(s, p, n - 1);
      MulInIntegers(s[n - 1], p[n - 1]);
    }
  }

  /** In the integers, the final step makes 0 of a survivor d with d*q == 0. */
  lemma FinalOfZero(d: nat, q: int, ok: bool, r: int)
    requires Mul(Integers, d, q) == 0 && FinalValue(Integers, d, q, ok, r) && ok
    ensures r == 0
  {
    hide NextPow2, Mul;
    MulInIntegers(d, q);
    var m := d % TWO_224 + NextPow2(d % TWO_224);
    MulInIntegers(m, q);
    if d > 0 { SameFactor(q, 0, d); }
  }

  /** On these points the run returns 0, if anything, and the sum is the idle scalar. */
  lemma IdleWitnessSum(s: seq<nat>, count: nat, ok: bool, r: int)
    requires FirstSize(count) <= count <= |s| && LeavesIdle(s, count)
    requires Returns(Integers, s, IdleWitness(s, count), count, ok, r)
    ensures Msm(Integers, s, IdleWitness(s, count), count) == IdleScalar(s, count) && (ok ==> r == 0)
  {
    hide Mul, Msm, GcdOf, Extends, InSpan, FinalValue, FirstPart, LastIndex, Abelian, Snapped, Unapply, Apply;
    var p := IdleWitness(s, count);
    var x := SnapshotOf(Integers, s, p, count);
    var rest := Zeroed(x.s, x.idle);
    var q := SurvivingIdle(Integers, s, p, count, ok, r);
    IntegersAreAbelian();
    ApplyUnapply(Integers, FirstPart(s, count).pairs, UnitAt(x.idle, |s|));
    assert x.p == UnitAt(x.idle, |s|);
    MsmTermsZero(rest, x.p, count);
    IdleTermMissing(Integers, s, p, count);
    MulInIntegers(x.s[x.idle], 1);
    if ok { FinalOfZero(GcdOf(rest, count), q, ok, r); }
  }

  /** On other scalars every outcome is wrong already in the integers. */
  lemma ExactIsNecessary(s: seq<nat>, count: nat, ok: bool, r: int)
    requires FirstSize(count) <= count <= |s| && !Exact(s, count)
    requires Returns(Integers, s, Witness(s, count), count, ok, r)
    ensures !(ok && r == Msm(Integers, s, Witness(s, count), count))
  {
    hide Outcome, Returns, Msm, GcdOf, Extends, IdleScalar, IdleWitness, OnesWitness, LeavesIdle;
    if LeavesIdle(s, count) && IdleScalar(s, count) > 0 {
      IdleWitnessSum(s, count, ok, r);
    } else {
      IdleZero(Integers, s, Witness(s, count), count, ok, r);
      OnesWitnessSum(s, count, ok, r);
    }
  }

  /** As many ones as show that the final step is wrong, or that terms are lost. */
  ghost function OnesWitness(s: seq<nat>, count: nat): (p: seq<int>)
    requires FirstSize(count) <= count <= |s|
    ensures |p| == |s| && forall i :: 0 <= i < |p| ==> p[i] == 0 || p[i] == 1
  {
    var n := Reached(s, count);
    Ones(if FinalExact(GcdOf(s, n)) then count else n, |s|)
  }

  lemma OnesWitnessSum(s: seq<nat>, count: nat, ok: bool, r: int)
    requires FirstSize(count) <= count <= |s|
    requires !FinalExact(GcdOf(s, Reached(s, count)))
          || (!Extends(s, count) && exists i :: FirstSize(count) <= i < count && s[i] != 0)
    requires Outcome(Integers, s, OnesWitness(s, count), count, ok, r)
    ensures !(ok && r == Msm(Integers, s, OnesWitness(s, count), count))
  {
    hide Outcome, Msm, SumOf, GcdOf, Extends, NextPow2;
    var n := Reached(s, count);
    var d := GcdOf(s, n);
    var k := if FinalExact(d) then count else n;
    var q := IntegerOutcome(s, Ones(k, |s|), count, ok, r);
    MsmOnes(s, k, count);
    MsmOnes(s, k, n);
    if FinalExact(d) {
      if d > 1 { FinalExactIff(d); }
      SumOfGrows(s, n, count);
    } else {
      var e := d % TWO_224;
      FinalExactIff(d);
      QuotientNonzero(s, n, q);
      if ok && (e + NextPow2(e)) * q == d * q { SameFactor(e + NextPow2(e), d, q); }
    }
  }

  lemma IntegersAreAbelian()
    ensures Abelian(Integers)
  {
  }

  /** So the run itself, started on such scalars and these points, does not return their sum. */
  method InexactRun(batch: Batch<int>, count: nat) returns (ok: bool, r: int)
    requires batch.Shape() && 5 <= count <= batch.heap.Length
    requires forall i :: FirstSize(count) <= i < count ==> batch.Keys()[i] < TWO_128
    requires !Exact(batch.Keys(), count) && batch.points[..] == Witness(batch.Keys(), count)
    modifies batch, batch.heap, batch.scalars, batch.points
    ensures !(ok && r == Msm(Integers, old(batch.Keys()), old(batch.points[..]), count))
  {
    hide Returns, Msm, GcdOf, Extends, Exact, Witness, Abelian;
    ghost var s := batch.Keys();
    IntegersAreAbelian();
    ok, r := MultiScalarmult(Integers, batch, count);
    ExactIsNecessary(s, count, ok, r);
  }

  lemma QuotientNonzero(s: seq<nat>, n: nat, q: int)
    requires n <= |s| && GcdOf(s, n) * q == SumOf(s, n) && GcdOf(s, n) > 0
    ensures q != 0
  {
    if SumOf(s, n) == 0 { SumOfZero(s, n); }
  }

  lemma SameFactor(x: int, y: int, q: int)
    requires x * q == y * q && q != 0
    ensures x == y
  {
    assert (x - y) * q == 0;
  }

  /**
   * Once the 128-bit scalars have joined, the run is exact just when all scalars are coprime and,
   * with an even count, the idle scalar is zero.
   */
  lemma ExtendedExactIff(s: seq<nat>, count: nat)
    requires FirstSize(count) <= count <= |s| && Extends(s, count)
    ensures Exact(s, count) <==> GcdOf(s, count) == 1 && (count % 2 == 0 ==> IdleScalar(s, count) == 0)
  {
    hide IdleScalar;
    var half := FirstSize(count);
    var i, j :| 0 <= i < j < half && s[i] > 0 && s[j] > 0;
    GcdOfLe(s, half, i);
    GcdOfLe(s, count, i);
    GcdOfPrefixLe(s, half, count);
  }

  /**
   * With an even count and a first half of nonzero 128-bit scalars, the run is exact just when all
   * scalars are coprime and the last one is zero.
   */
  lemma EvenExactIff(s: seq<nat>, count: nat)
    requires 5 <= count <= |s| && count % 2 == 0
    requires forall i :: 0 <= i < FirstSize(count) ==> 0 < s[i] < TWO_128
    ensures Exact(s, count) <==> GcdOf(s, count) == 1 && s[count - 1] == 0
  {
    hide GcdOf, IdleScalar, FirstPart;
    assert s[0] > 0 && s[1] > 0;
    GcdOfLe(s, FirstSize(count), 0);
    FirstPartOfSmall(s, count);
    IdleZeroIff(s, count);
    ExtendedExactIff(s, count);
  }

  /** With an even count and no zero among the scalars, no run whose first half fits in 128 bits is exact. */
  lemma EvenNeverExact(s: seq<nat>, count: nat)
    requires 5 <= count <= |s| && count % 2 == 0 && AllBelow128(s, FirstSize(count))
    requires forall i :: 0 <= i < count ==> s[i] > 0
    ensures !Exact(s, count)
  {
    hide Exact, GcdOf;
    EvenExactIff(s, count);
  }

  /** Five scalars 2 at the point 1: the sum is 10, the run returns 30. */
  lemma OvershootExample(ok: bool, r: int)
    requires Outcome(Integers, [2, 2, 2, 2, 2], [1, 1, 1, 1, 1], 5, ok, r)
    ensures r == 30 && Msm(Integers, [2, 2, 2, 2, 2], [1, 1, 1, 1, 1], 5) == 10
  {
    hide Mul, Msm, GcdOf, SumOf, NextPow2, Outcome;
    var s: seq<nat> := [2, 2, 2, 2, 2];
    TwosFacts();
    assert Ones(5, 5) == [1, 1, 1, 1, 1];
    MsmOnes(s, 5, 5);
    var q := IntegerOutcome(s, [1, 1, 1, 1, 1], 5, ok, r);
  }

  lemma TwosFacts()
    ensures var s: seq<nat> := [2, 2, 2, 2, 2];
            SumOf(s, 5) == 10 && GcdOf(s, 3) == 2 && GcdOf(s, 5) == 2 && Extends(s, 5) && NextPow2(2) == 4
  {
    var s: seq<nat> := [2, 2, 2, 2, 2];
    assert s[0] > 0 && s[1] > 0;
  }

  /** A single nonzero scalar in the first half: the run stops at once and the last two terms are lost. */
  lemma EarlyExitExample(ok: bool, r: int)
    requires Outcome(Integers, [1, 0, 0, 1, 1], [1, 1, 1, 1, 1], 5, ok, r)
    ensures r == 1 && Msm(Integers, [1, 0, 0, 1, 1], [1, 1, 1, 1, 1], 5) == 3
  {
    hide Mul, Msm, GcdOf, SumOf, NextPow2, Outcome;
    var s: seq<nat> := [1, 0, 0, 1, 1];
    OneFacts();
    assert Ones(5, 5) == [1, 1, 1, 1, 1];
    MsmOnes(s, 5, 5);
    MsmOnes(s, 5, 3);
    var q := IntegerOutcome(s, [1, 1, 1, 1, 1], 5, ok, r);
  }

  lemma OneFacts()
    ensures var s: seq<nat> := [1, 0, 0, 1, 1];
            SumOf(s, 5) == 3 && SumOf(s, 3) == 1 && GcdOf(s, 3) == 1 && !Extends(s, 5)
  {
  }

  /** With an even count that extends, exactly the idle term is missing from the sum that is left. */
  lemma IdleTermMissing<P(!new)>(g: Group<P>, s: seq<nat>, p: seq<P>, count: nat)
    requires Abelian(g) && FirstSize(count) <= count <= |s| && |s| == |p| && Snapped(g, s, p, count)
    requires SnapshotOf(g, s, p, count).idle < count
    ensures var x := SnapshotOf(g, s, p, count);
            g.add(Msm(g, Zeroed(x.s, x.idle), x.p, count), Mul(g, x.s[x.idle], x.p[x.idle])) == Msm(g, s, p, count)
  {
    hide Msm, Mul, Abelian, GcdOf, SnapshotOf;
    var x := SnapshotOf(g, s, p, count);
    var rest, i := Zeroed(x.s, x.idle), x.idle;
    var term := Mul(g, x.s[i], x.p[i]);
    ZeroTimes(g, x.p[i]);
    Laws(g, g.zero, term, term);
    Laws(g, term, g.zero, term);
    MsmUpdate(g, rest, x.p, i, x.s[i], x.p[i], term, count);
    assert rest[i := x.s[i]] == x.s && x.p[i := x.p[i]] == x.p;
  }

  lemma ZeroTimes<P(!new)>(g: Group<P>, p: P)
    ensures Mul(g, 0, p) == g.zero
  {
  }

  /** For given points: if the final step is right for what is left, the run is right just when the idle term is 0. */
  lemma IdleExactIff<P(!new)>(g: Group<P>, s: seq<nat>, p: seq<P>, count: nat, ok: bool, r: P)
    requires Abelian(g) && FirstSize(count) <= count <= |s| && |s| == |p| && IdleOutcome(g, s, p, count, ok, r)
    requires var x := SnapshotOf(g, s, p, count); FinalExact(GcdOf(Zeroed(x.s, x.idle), count))
    ensures var x := SnapshotOf(g, s, p, count);
            ok && (r == Msm(g, s, p, count) <==> Mul(g, x.s[x.idle], x.p[x.idle]) == g.zero)
  {
    hide Mul, Msm, GcdOf, Abelian, InSpan, SnapshotOf, IdleOutcome, Snapped, Zeroed, FinalValue, FinalExact;
    var x := SnapshotOf(g, s, p, count);
    var q := SurvivingIdle(g, s, p, count, ok, r);
    var rest := Zeroed(x.s, x.idle);
    var d := GcdOf(rest, count);
    FinalIsRight(g, d, q, ok, r);
    IdleTermMissing(g, s, p, count);
    SameSum(g, Msm(g, rest, x.p, count), Mul(g, x.s[x.idle], x.p[x.idle]));
  }

  lemma SameSum<P(!new)>(g: Group<P>, sum: P, term: P)
    requires Abelian(g)
    ensures g.add(sum, term) == sum <==> term == g.zero
  {
    hide Abelian;
    Laws(g, sum, g.zero, g.zero);
    if g.add(sum, term) == sum { CancelSum(g, sum, term); }
  }

  lemma CancelSum<P(!new)>(g: Group<P>, x: P, y: P)
    requires Abelian(g) && g.add(x, y) == x
    ensures y == g.zero
  {
    Laws(g, g.neg(x), x, y);
    Laws(g, x, g.neg(x), y);
    Laws(g, y, g.zero, y);
    Laws(g, g.zero, y, y);
  }

  /** Six scalars 1 at the point 1: the sum is 6, the run returns 5. */
  lemma EvenCountExample(ok: bool, r: int)
    requires Returns(Integers, [1, 1, 1, 1, 1, 1], [1, 1, 1, 1, 1, 1], 6, ok, r)
    ensures r == 5 && Msm(Integers, [1, 1, 1, 1, 1, 1], [1, 1, 1, 1, 1, 1], 6) == 6
  {
    hide Mul, Msm, GcdOf, SumOf, NextPow2, InSpan, Outcome, Conserved, Zeroed, SnapshotOf;
    var s: seq<nat>, p := [1, 1, 1, 1, 1, 1], [1, 1, 1, 1, 1, 1];
    SixFacts();
    assert Ones(6, 6) == p;
    MsmOnes(s, 6, 6);
    IntegersAreAbelian();
    var x := SnapshotOf(Integers, s, p, 6);
    assert x.s == s && x.p == p;
    IdleTermMissing(Integers, s, p, 6);
    MulInIntegers(1, 1);
    GcdOfOnes(s, x.idle);
  }

  lemma SixFacts()
    ensures var s: seq<nat> := [1, 1, 1, 1, 1, 1];
            SumOf(s, 6) == 6 && Extends(s, 6) && FirstSize(6) == 3 && AllBelow128(s, 3)
  {
    var s: seq<nat> := [1, 1, 1, 1, 1, 1];
    assert s[0] > 0 && s[1] > 0;
    GcdOfLe(s, 3, 0);
  }

  /** Without one of six ones the gcd is still 1. */
  lemma GcdOfOnes(s: seq<nat>, i: nat)
    requires s == [1, 1, 1, 1, 1, 1] && i < 6
    ensures GcdOf(Zeroed(s, i), 6) == 1
  {
    var t := Zeroed(s, i);
    var k := if i == 0 then 1 else 0;
    GcdOfLe(t, 6, k);
  }
}
